/** BGRA to planar I420 and back: the layout of the planes, the fixed-point arithmetic of
    section 2.5 of ITU-R BT.601-7, and the error a round trip makes. */
module ColorMath {

  import opened Bytes

  function Clamp(x: int): Byte {
    if x < 0 then 0 else if x > 255 then 255 else x
  }

  // Rust's `>>` on i32 rounds down, as Dafny's `/` does for a positive divisor.

  function RawLuma(r: Byte, g: Byte, b: Byte): int {
    (66 * r + 129 * g + 25 * b + 128) / 256 + 16
  }

  function RawCb(r: Byte, g: Byte, b: Byte): int {
    (-38 * r - 74 * g + 112 * b + 128) / 256 + 128
  }

  function RawCr(r: Byte, g: Byte, b: Byte): int {
    (112 * r - 94 * g - 18 * b + 128) / 256 + 128
  }

  function Luma(r: Byte, g: Byte, b: Byte): Byte { Clamp(RawLuma(r, g, b)) }

  function Cb(r: Byte, g: Byte, b: Byte): Byte { Clamp(RawCb(r, g, b)) }

  function Cr(r: Byte, g: Byte, b: Byte): Byte { Clamp(RawCr(r, g, b)) }

  function RawRed(y: Byte, v: Byte): int {
    (1192 * (y - 16) + 1634 * (v - 128) + 512) / 1024
  }

  function RawGreen(y: Byte, u: Byte, v: Byte): int {
    (1192 * (y - 16) - 833 * (v - 128) - 400 * (u - 128) + 512) / 1024
  }

  function RawBlue(y: Byte, u: Byte): int {
    (1192 * (y - 16) + 2066 * (u - 128) + 512) / 1024
  }

  function Red(y: Byte, v: Byte): Byte {
    Clamp(RawRed(y, v))
  }

  function Green(y: Byte, u: Byte, v: Byte): Byte {
    Clamp(RawGreen(y, u, v))
  }

  function Blue(y: Byte, u: Byte): Byte {
    Clamp(RawBlue(y, u))
  }

  predicate Within(a: int, b: int, tolerance: int) {
    -tolerance <= a - b <= tolerance
  }

  /** Blue falls by at most 2 and rises by at most 3. */
  predicate BlueWithinBounds(decoded: int, original: int) {
    -2 <= decoded - original <= 3
  }

  /** The encoder stays in the studio range, so its clamps never act. */
  lemma StudioRange(r: Byte, g: Byte, b: Byte)
    ensures 16 <= Luma(r, g, b) == RawLuma(r, g, b) <= 235
    ensures 16 <= Cb(r, g, b) == RawCb(r, g, b) <= 240
    ensures 16 <= Cr(r, g, b) == RawCr(r, g, b) <= 240
  {
  }

  /** `x` is less than one away from the fraction `n` / `d`. */
  predicate NearFraction(x: int, n: int, d: int) {
    -d < d * x - n < d
  }

  /** Luma within one level of the standard's 16 + 219 Y / 255, for Y = 0.299 R + 0.587 G + 0.114 B. */
  predicate StandardLuma(y: int, r: int, g: int, b: int) {
    NearFraction(y - 16, 219 * (299 * r + 587 * g + 114 * b), 255 * 1000)
  }

  /** Chroma within one level of 128 + 224 (B - Y) / (255 * 1.772) and 128 + 224 (R - Y) / (255 * 1.402). */
  predicate StandardChroma(u: int, v: int, r: int, g: int, b: int) {
    && NearFraction(u - 128, 224 * (886 * b - 299 * r - 587 * g), 255 * 1772)
    && NearFraction(v - 128, 224 * (701 * r - 587 * g - 114 * b), 255 * 1402)
  }

  /** The fixed-point encoder follows the standard for every pixel. */
  lemma EncodesByTheStandard(r: Byte, g: Byte, b: Byte)
    ensures StandardLuma(Luma(r, g, b), r, g, b)
    ensures StandardChroma(Cb(r, g, b), Cr(r, g, b), r, g, b)
  {
    EncodesByFloor(r, g, b);
    LumaBounds(r, g, b, Luma(r, g, b) - 16);
    CbBounds(r, g, b, Cb(r, g, b) - 128);
    CrBounds(r, g, b, Cr(r, g, b) - 128);
  }

  lemma LumaBounds(r: Byte, g: Byte, b: Byte, y: int)
    requires Floored(y, 66 * r + 129 * g + 25 * b + 128, 256)
    ensures NearFraction(y, 219 * (299 * r + 587 * g + 114 * b), 255 * 1000)
  {
  }

  lemma CbBounds(r: Byte, g: Byte, b: Byte, u: int)
    requires Floored(u, -38 * r - 74 * g + 112 * b + 128, 256)
    ensures NearFraction(u, 224 * (886 * b - 299 * r - 587 * g), 255 * 1772)
  {
  }

  lemma CrBounds(r: Byte, g: Byte, b: Byte, v: int)
    requires Floored(v, 112 * r - 94 * g - 18 * b + 128, 256)
    ensures NearFraction(v, 224 * (701 * r - 587 * g - 114 * b), 255 * 1402)
  {
  }

  /** And the decoder, before it clamps, within one level of the standard's inverse. */
  lemma DecodesByTheStandard(y: Byte, u: Byte, v: Byte)
    ensures NearFraction(RawRed(y, v), 255 * 224_000 * (y - 16) + 255 * 1402 * 219 * (v - 128), 219 * 224_000)
    ensures NearFraction(RawGreen(y, u, v),
                         255 * 224 * 587_000 * (y - 16)
                         - 255 * 219 * (114 * 1772 * (u - 128) + 299 * 1402 * (v - 128)), 219 * 224 * 587_000)
    ensures NearFraction(RawBlue(y, u), 255 * 224_000 * (y - 16) + 255 * 1772 * 219 * (u - 128), 219 * 224_000)
    {
    var luma: int, cb: int, cr: int := y - 16, u - 128, v - 128;
    InverseBounds(luma, cb, cr, RawRed(y, v), RawGreen(y, u, v), RawBlue(y, u));
    assert 255 * 219 * (114 * 1772 * cb + 299 * 1402 * cr) == 11_281_136_760 * cb + 23_410_112_310 * cr;
  }

  lemma InverseBounds(y: int, u: int, v: int, red: int, green: int, blue: int)
    requires -16 <= y < 240 && -128 <= u < 128 && -128 <= v < 128
    requires Floored(red, 1192 * y + 1634 * v + 512, 1024)
    requires Floored(green, 1192 * y - 833 * v - 400 * u + 512, 1024)
    requires Floored(blue, 1192 * y + 2066 * u + 512, 1024)
    ensures NearFraction(red, 57_120_000 * y + 78_294_690 * v, 49_056_000)
    ensures NearFraction(green, 33_529_440_000 * y - 11_281_136_760 * u - 23_410_112_310 * v, 28_795_872_000)
    ensures NearFraction(blue, 57_120_000 * y + 98_957_340 * u, 49_056_000)
  {
  }

  /** `q` is `n` divided by `d`, rounded down. */
  predicate Floored(q: int, n: int, d: int) {
    d * q <= n < d * q + d
  }

  /** A value whose fixed-point form lies at most `down` below and `up` above a byte decodes to within that. */
  lemma ClampKeepsTolerance(n: int, c: Byte, down: nat, up: nat)
    requires 1024 * (c - down) <= n < 1024 * (c + up + 1)
    ensures c <= Clamp(n / 1024) + down && Clamp(n / 1024) <= c + up
  {
  }

  lemma RoundTripBounds(r: Byte, g: Byte, b: Byte, y: int, u: int, v: int)
    requires Floored(y, 66 * r + 129 * g + 25 * b + 128, 256)
    requires Floored(u, -38 * r - 74 * g + 112 * b + 128, 256)
    requires Floored(v, 112 * r - 94 * g - 18 * b + 128, 256)
    ensures 1024 * (r - 2) <= 1192 * y + 1634 * v + 512 < 1024 * (r + 3)
    ensures 1024 * (g - 2) <= 1192 * y - 833 * v - 400 * u + 512 < 1024 * (g + 3)
    ensures 1024 * (b - 2) <= 1192 * y + 2066 * u + 512 < 1024 * (b + 4)
  {
  }

  lemma RedWithin(c: Byte, y: Byte, v: Byte)
    requires 1024 * (c - 2) <= 1192 * (y - 16) + 1634 * (v - 128) + 512 < 1024 * (c + 3)
    ensures Within(Red(y, v), c, 2)
  {
    ClampKeepsTolerance(1192 * (y - 16) + 1634 * (v - 128) + 512, c, 2, 2);
  }

  lemma GreenWithin(c: Byte, y: Byte, u: Byte, v: Byte)
    requires 1024 * (c - 2) <= 1192 * (y - 16) - 833 * (v - 128) - 400 * (u - 128) + 512 < 1024 * (c + 3)
    ensures Within(Green(y, u, v), c, 2)
  {
    ClampKeepsTolerance(1192 * (y - 16) - 833 * (v - 128) - 400 * (u - 128) + 512, c, 2, 2);
  }

  lemma BlueWithin(c: Byte, y: Byte, u: Byte)
    requires 1024 * (c - 2) <= 1192 * (y - 16) + 2066 * (u - 128) + 512 < 1024 * (c + 4)
    ensures BlueWithinBounds(Blue(y, u), c)
  {
    ClampKeepsTolerance(1192 * (y - 16) + 2066 * (u - 128) + 512, c, 2, 3);
  }

  lemma EncodesByFloor(r: Byte, g: Byte, b: Byte)
    ensures Floored(Luma(r, g, b) - 16, 66 * r + 129 * g + 25 * b + 128, 256)
    ensures Floored(Cb(r, g, b) - 128, -38 * r - 74 * g + 112 * b + 128, 256)
    ensures Floored(Cr(r, g, b) - 128, 112 * r - 94 * g - 18 * b + 128, 256)
  {
    StudioRange(r, g, b);
  }

  /** Encoding a pixel and decoding it again moves red and green by at most 2 either way, and blue by at
      most 2 down and 3 up. */
  lemma PixelRoundTrip(r: Byte, g: Byte, b: Byte)
    ensures var y, u, v := Luma(r, g, b), Cb(r, g, b), Cr(r, g, b);
            Within(Red(y, v), r, 2) && Within(Green(y, u, v), g, 2) && BlueWithinBounds(Blue(y, u), b)
  {
    var y: int, u: int, v: int := Luma(r, g, b), Cb(r, g, b), Cr(r, g, b);
    EncodesByFloor(r, g, b);
    RoundTripBounds(r, g, b, y - 16, u - 128, v - 128);
    RedWithin(r, y, v);
    GreenWithin(g, y, u, v);
    BlueWithin(b, y, u);
  }

  /** The error of every channel after encoding and decoding a pixel. */
  function RoundTripError(r: Byte, g: Byte, b: Byte): (int, int, int) {
    var y, u, v := Luma(r, g, b), Cb(r, g, b), Cr(r, g, b);
    (Red(y, v) as int - r as int, Green(y, u, v) as int - g as int, Blue(y, u) as int - b as int)
  }

  /** No bound can be smaller: some pixel attains each of them, the last two among the greys. */
  lemma BoundsAreAttained()
    ensures RoundTripError(94, 1, 18).0 == -2 && RoundTripError(0, 0, 149).0 == 2
    ensures RoundTripError(0, 201, 166).1 == -2 && RoundTripError(173, 15, 24).1 == 2
    ensures RoundTripError(0, 0, 65).2 == -2 && RoundTripError(116, 255, 1).2 == 3
    ensures RoundTripError(153, 153, 153).0 == -1 && RoundTripError(252, 252, 252).0 == 1
  {
    assert (Luma(94, 1, 18), Cb(94, 1, 18), Cr(94, 1, 18)) == (42, 122, 167);
    assert (Luma(0, 0, 149), Cb(0, 0, 149), Cr(0, 0, 149)) == (31, 193, 118);
    assert (Luma(0, 201, 166), Cb(0, 201, 166), Cr(0, 201, 166)) == (133, 143, 43);
    assert (Luma(173, 15, 24), Cb(173, 15, 24), Cr(173, 15, 24)) == (71, 108, 196);
    assert (Luma(0, 0, 65), Cb(0, 0, 65), Cr(0, 0, 65)) == (22, 156, 123);
    assert (Luma(116, 255, 1), Cb(116, 255, 1), Cr(116, 255, 1)) == (175, 38, 85);
    assert (Luma(153, 153, 153), Cb(153, 153, 153), Cr(153, 153, 153)) == (147, 128, 128);
    assert (Luma(252, 252, 252), Cb(252, 252, 252), Cr(252, 252, 252)) == (233, 128, 128);
  }

  lemma GreyRoundTrip(k: Byte)
    ensures Cb(k, k, k) == 128 && Cr(k, k, k) == 128
    ensures Within(Red(Luma(k, k, k), 128), k, 1)
    ensures Within(Green(Luma(k, k, k), 128, 128), k, 1)
    ensures Within(Blue(Luma(k, k, k), 128), k, 1)
  {
  }
}
