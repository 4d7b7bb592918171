/** Pixel decoding: the byte buffer a window capture hands out, turned into a
    raster of RGBA pixels, and the integer luminance of one pixel. */
module Pixels {
  import opened Options

  /** A signed byte, as the capture call returns the bitmap's bytes. */
  type SByte = b: int | -128 <= b < 128

  /** One pixel, components in red, green, blue, alpha order. */
  datatype Rgba = Rgba(r: int, g: int, b: int, a: int)

  /** A raster: rows of pixels, addressed row first. */
  type Raster = seq<seq<Rgba>>

  predicate IsComponent(v: int) { 0 <= v < 256 }

  predicate IsColor(p: Rgba) {
    IsComponent(p.r) && IsComponent(p.g) && IsComponent(p.b) && IsComponent(p.a)
  }

  /** The unsigned value of the eight bits of a signed byte. */
  function Unsigned(b: SByte): (u: int)
    ensures IsComponent(u)
    ensures (u - b) % 256 == 0
  {
    if b >= 0 then b else b + 256
  }

  /** The pixel stored as four bytes in blue, green, red, alpha order. */
  function PixelOfBgra(quad: seq<SByte>): (p: Rgba)
    requires |quad| == 4
    ensures IsColor(p)
  {
    Rgba(Unsigned(quad[2]), Unsigned(quad[1]), Unsigned(quad[0]), Unsigned(quad[3]))
  }

  /** The signed byte with the same eight bits as a component value. */
  function Signed(u: int): (b: SByte)
    requires IsComponent(u)
    ensures Unsigned(b) == u
  {
    if u < 128 then u else u - 256
  }

  /** The four bytes a capture stores for a pixel; decoding them gives the pixel back. */
  function BgraOfPixel(p: Rgba): (quad: seq<SByte>)
    requires IsColor(p)
    ensures |quad| == 4 && PixelOfBgra(quad) == p
  {
    [Signed(p.b), Signed(p.g), Signed(p.r), Signed(p.a)]
  }

  /** Every four signed bytes are the encoding of the pixel they decode to. */
  lemma BgraRoundTrip(quad: seq<SByte>)
    requires |quad| == 4
    ensures BgraOfPixel(PixelOfBgra(quad)) == quad
  {
  }

  /** Where the pixel (r, c) of a raster `width` pixels wide starts in the byte buffer. */
  function Offset(width: nat, r: nat, c: nat): nat {
    4 * (r * width + c)
  }

  lemma OffsetBound(width: nat, height: nat, r: nat, c: nat)
    requires r < height && c < width
    ensures Offset(width, r, c) + 4 <= width * height * 4
  {
    assert r * width + c < (r + 1) * width by {
      assert (r + 1) * width == r * width + width;
    }
    assert (r + 1) * width <= height * width by {
      assert r + 1 <= height;
    }
  }

  /** The pixel at (r, c) of a buffer of `width` × `height` four-byte pixels. */
  function PixelAt(bits: seq<SByte>, width: nat, height: nat, r: nat, c: nat): Rgba
    requires |bits| == width * height * 4 && r < height && c < width
  {
    OffsetBound(width, height, r, c);
    PixelOfBgra(bits[Offset(width, r, c)..Offset(width, r, c) + 4])
  }

  /** The decode loop of the screenshot: checks the buffer length (the source
      asserts it) and then reads `height` rows of `width` pixels, mapping each
      signed byte to [0, 255] and swapping the blue and red components. */
  method DecodeBitmap(bits: seq<SByte>, width: nat, height: nat) returns (screen: Option<Raster>)
    ensures screen.None? <==> |bits| != width * height * 4
    ensures screen.Some? ==> |screen.value| == height
    ensures screen.Some? ==> forall r :: 0 <= r < height ==> |screen.value[r]| == width
    ensures screen.Some? ==> forall r, c :: 0 <= r < height && 0 <= c < width ==>
              screen.value[r][c] == PixelAt(bits, width, height, r, c) && IsColor(screen.value[r][c])
  {
    if |bits| != width * height * 4 {
      return None;
    }
    var rows: Raster := [];
    var r := 0;
    while r < height
      invariant 0 <= r <= height && |rows| == r
      invariant forall i :: 0 <= i < r ==> |rows[i]| == width
      invariant forall i, c :: 0 <= i < r && 0 <= c < width ==> rows[i][c] == PixelAt(bits, width, height, i, c)
    {
      var sr := 4 * (r * width);
      var line: seq<Rgba> := [];
      var c := 0;
      while c < width
        invariant 0 <= c <= width && |line| == c
        invariant forall k :: 0 <= k < c ==> line[k] == PixelAt(bits, width, height, r, k)
      {
        var sc := sr + 4 * c;
        OffsetBound(width, height, r, c);
        assert sc == Offset(width, r, c);
        var rgba := [Unsigned(bits[sc]), Unsigned(bits[sc + 1]), Unsigned(bits[sc + 2]), Unsigned(bits[sc + 3])];
        rgba := rgba[0 := rgba[2]][2 := rgba[0]];
        line := line + [Rgba(rgba[0], rgba[1], rgba[2], rgba[3])];
        c := c + 1;
      }
      rows := rows + [line];
      r := r + 1;
    }
    screen := Some(rows);
  }

  /** Luminance as the source computes it: weights 38, 75 and 15 on red,
      green and blue, then a right shift by seven bits. */
  function Gray(p: Rgba): (g: int)
    ensures IsColor(p) ==> 0 <= g < 256
  {
    (p.r * 38 + p.g * 75 + p.b * 15) / 128
  }

  /** The weights add up to 128, so a neutral grey keeps its level. */
  lemma GrayOfNeutral(v: int, a: int)
    ensures Gray(Rgba(v, v, v, a)) == v
  {
  }
}
