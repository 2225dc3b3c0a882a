/**
 * Frame arithmetic of `ImageProcessor`: the NV21 buffer size, the fixed-point
 * YUV to ARGB pixel conversion, the two whole-frame converters and the recipe
 * of the detector-to-screen transformation matrix.
 *
 * The pixel conversion inverts the 8-bit YCbCr encoding of ITU-R BT.601
 * (section 2.5 of Recommendation BT.601): luma offset 16, chroma offset 128,
 * coefficients 1.164, 1.596, 0.813, 0.391 and 2.018 scaled by 1024, each
 * channel clamped to 18 bits and its top 8 bits kept.
 */
module ImageProcessor {
  import opened Bits
  import opened MatrixOps
  import opened FrameScan

  /** `MAX_COLOR_VALUE`: 2^18 - 1, the largest 18-bit channel value. */
  const MaxColorValue := 262143

  // ---------------------------------------------------------------------
  // ARGB pixels

  /** The pixel with alpha a and channels r, g, b (each in 0..255). */
  function Argb(a: Byte, r: Byte, g: Byte, b: Byte): Int32Bits {
    a * 0x100_0000 + r * 0x1_0000 + g * 0x100 + b
  }

  function Alpha(p: Int32Bits): Byte { p / 0x100_0000 }
  function Red(p: Int32Bits): Byte { p / 0x1_0000 % 256 }
  function Green(p: Int32Bits): Byte { p / 0x100 % 256 }
  function Blue(p: Int32Bits): Byte { p % 256 }

  /** The four bytes of a packed pixel read back what was packed. */
  lemma ArgbChannels(a: Byte, r: Byte, g: Byte, b: Byte)
    ensures Alpha(Argb(a, r, g, b)) == a
    ensures Red(Argb(a, r, g, b)) == r
    ensures Green(Argb(a, r, g, b)) == g
    ensures Blue(Argb(a, r, g, b)) == b
  {
    var p := Argb(a, r, g, b);
    DivModUnique(p, 0x100_0000, a, r * 0x1_0000 + g * 0x100 + b);
    DivModUnique(p, 0x1_0000, a * 0x100 + r, g * 0x100 + b);
    DivModUnique(a * 0x100 + r, 256, a, r);
    DivModUnique(p, 0x100, a * 0x1_0000 + r * 0x100 + g, b);
    DivModUnique(a * 0x1_0000 + r * 0x100 + g, 256, a * 0x100 + r, g);
    DivModUnique(p, 256, a * 0x1_0000 + r * 0x100 + g, b);
  }

  // ---------------------------------------------------------------------
  // Pixel conversion

  /** `Math.min(MAX_COLOR_VALUE, Math.max(0, x))` */
  function Clamp(x: int): int {
    if x < 0 then 0 else if x > MaxColorValue then MaxColorValue else x
  }

  /** The 18-bit red level before clamping: 1.164 (y - 16) + 1.596 (v - 128), times 1024. */
  function RedLevel(y: Byte, v: Byte): int {
    1192 * (if y < 16 then 0 else y - 16) + 1634 * (v - 128)
  }

  /** The green level: 1.164 (y - 16) - 0.813 (v - 128) - 0.391 (u - 128), times 1024. */
  function GreenLevel(y: Byte, u: Byte, v: Byte): int {
    1192 * (if y < 16 then 0 else y - 16) - 833 * (v - 128) - 400 * (u - 128)
  }

  /** The blue level: 1.164 (y - 16) + 2.018 (u - 128), times 1024. */
  function BlueLevel(y: Byte, u: Byte): int {
    1192 * (if y < 16 then 0 else y - 16) + 2066 * (u - 128)
  }

  /** The 8-bit channel kept from a level: its clamped value divided by 1024. */
  function ChannelOf(level: int): (c: Byte) {
    Clamp(level) / 1024
  }

  /**
   * The packing expression
   * `0xff000000 | ((r << 6) & 0xff0000) | ((g >> 2) & 0xff00) | ((b >> 10) & 0xff)`
   * on clamped 18-bit channels: an opaque pixel holding each channel's top 8 bits.
   */
  function PackChannels(r: nat, g: nat, b: nat): (p: nat)
    requires r <= MaxColorValue && g <= MaxColorValue && b <= MaxColorValue
    ensures p == Argb(0xFF, r / 1024, g / 1024, b / 1024)
  {
    PackingLemma(r, g, b);
    Or(Or(Or(0xff00_0000, And(ShiftLeft(r, 6), 0xff_0000)),
          And(ShiftRight(g, 2), 0xff00)),
       And(ShiftRight(b, 10), 0xff))
  }

  lemma PackingLemma(r: nat, g: nat, b: nat)
    requires r <= MaxColorValue && g <= MaxColorValue && b <= MaxColorValue
    ensures Or(Or(Or(0xff00_0000, And(ShiftLeft(r, 6), 0xff_0000)),
                  And(ShiftRight(g, 2), 0xff00)),
               And(ShiftRight(b, 10), 0xff))
            == Argb(0xFF, r / 1024, g / 1024, b / 1024)
  {
    RedField(r);
    GreenField(g);
    BlueField(b);
    DisjointFields(r / 1024, g / 1024, b / 1024);
  }

  /** `(r << 6) & 0xff0000` places the top 8 of 18 bits at bits 16..23. */
  lemma RedField(r: nat)
    requires r <= MaxColorValue
    ensures And(ShiftLeft(r, 6), 0xff_0000) == r / 1024 * 0x1_0000
  {
    Pow2Values();
    var q, s := r / 1024, r % 1024;
    assert ShiftLeft(r, 6) == (0 * 256 + q) * Pow2(16) + 64 * s;
    AndField(0, q, 64 * s, 16);
  }

  /** `(g >> 2) & 0xff00` places the top 8 of 18 bits at bits 8..15. */
  lemma GreenField(g: nat)
    requires g <= MaxColorValue
    ensures And(ShiftRight(g, 2), 0xff00) == g / 1024 * 0x100
  {
    Pow2Values();
    var q, s := g / 1024, g % 1024;
    assert ShiftRight(g, 2) == (0 * 256 + q) * Pow2(8) + s / 4;
    AndField(0, q, s / 4, 8);
  }

  /** `(b >> 10) & 0xff` keeps the top 8 of 18 bits at bits 0..7. */
  lemma BlueField(b: nat)
    requires b <= MaxColorValue
    ensures And(ShiftRight(b, 10), 0xff) == b / 1024
  {
    Pow2Values();
    assert ShiftRight(b, 10) == 0 * Pow2(8) + b / 1024;
    AndLow(0, b / 1024, 8);
  }

  /** OR-ing the alpha byte and three channel fields that do not overlap adds them. */
  lemma DisjointFields(r: Byte, g: Byte, b: Byte)
    ensures Or(Or(Or(0xff00_0000, r * 0x1_0000), g * 0x100), b) == Argb(0xFF, r, g, b)
  {
    Pow2Values();
    OrDisjoint(255, 24, r * 0x1_0000);
    var a1 := Or(0xff00_0000, r * 0x1_0000);
    assert a1 == (255 * 256 + r) * Pow2(16);
    OrDisjoint(255 * 256 + r, 16, g * 0x100);
    var a2 := Or(a1, g * 0x100);
    assert a2 == (255 * 65536 + r * 256 + g) * Pow2(8);
    OrDisjoint(255 * 65536 + r * 256 + g, 8, b);
  }

  /**
   * `convertYUVToRGB(int y, int u, int v)`, applied to the unsigned byte values
   * its callers pass: the levels above, each clamped and packed by the bit
   * expression of `PackChannels`.
   */
  function ConvertPixel(y: Byte, u: Byte, v: Byte): (p: Int32Bits)
    ensures p == Argb(0xFF, ChannelOf(RedLevel(y, v)), ChannelOf(GreenLevel(y, u, v)), ChannelOf(BlueLevel(y, u)))
  {
    PackChannels(Clamp(RedLevel(y, v)), Clamp(GreenLevel(y, u, v)), Clamp(BlueLevel(y, u)))
  }

  /** Every converted pixel is opaque and each channel is its clamped level divided by 1024. */
  lemma PixelChannels(y: Byte, u: Byte, v: Byte)
    ensures Alpha(ConvertPixel(y, u, v)) == 0xFF
    ensures Red(ConvertPixel(y, u, v)) == Clamp(RedLevel(y, v)) / 1024 <= 255
    ensures Green(ConvertPixel(y, u, v)) == Clamp(GreenLevel(y, u, v)) / 1024 <= 255
    ensures Blue(ConvertPixel(y, u, v)) == Clamp(BlueLevel(y, u)) / 1024 <= 255
  {
    ArgbChannels(0xFF, ChannelOf(RedLevel(y, v)), ChannelOf(GreenLevel(y, u, v)), ChannelOf(BlueLevel(y, u)));
  }

  /** With neutral chroma the three levels coincide: the luma term alone. */
  lemma NeutralLevels(y: Byte)
    ensures RedLevel(y, 128) == GreenLevel(y, 128, 128) == BlueLevel(y, 128)
    ensures y <= 16 ==> ChannelOf(RedLevel(y, 128)) == 0
  {
  }

  /** With neutral chroma the pixel is grey. */
  lemma NeutralChromaIsGrey(y: Byte)
    ensures var p := ConvertPixel(y, 128, 128);
            Red(p) == Green(p) == Blue(p)
  {
    NeutralLevels(y);
    var c := ChannelOf(RedLevel(y, 128));
    ArgbChannels(0xFF, c, c, c);
  }

  /** With neutral chroma, a luma at or below 16 (the BT.601 black level) gives opaque black. */
  lemma DarkLumaIsBlack(y: Byte)
    requires y <= 16
    ensures ConvertPixel(y, 128, 128) == 0xFF00_0000
  {
    NeutralLevels(y);
  }

  // ---------------------------------------------------------------------
  // Frame sizes

  /** `computeYUVSize`: a full luma plane plus interleaved chroma at half resolution. */
  function ComputeYUVSize(width: nat, height: nat): nat {
    width * height + (width + 1) / 2 * ((height + 1) / 2) * 2
  }

  /** For even dimensions the NV21 size is one and a half bytes per pixel. */
  lemma YuvSizeOfEvenFrame(width: nat, height: nat)
    requires width % 2 == 0 && height % 2 == 0
    ensures 2 * ComputeYUVSize(width, height) == 3 * width * height
  {
    var a, b := width / 2, height / 2;
    assert (width + 1) / 2 == a && (height + 1) / 2 == b;
    assert width * height == 4 * a * b;
  }

  /** A buffer of `computeYUVSize` bytes covers every byte the NV21 converter reads. */
  lemma {:induction false} Nv21SpanWithinYuvSize(width: nat, height: nat)
    ensures Nv21Span(width, height) <= ComputeYUVSize(width, height)
  {
    if width > 0 && height > 0 {
      var m := (height - 1) / 2;
      var a := (width + 1) / 2;
      assert (height + 1) / 2 == m + 1;
      assert 2 * a >= width;
      assert a * (m + 1) * 2 == 2 * a * m + 2 * a;
      assert m * width <= m * (2 * a) by { MulMonotone(m, width, 2 * a); }
    }
  }

  // ---------------------------------------------------------------------
  // Frame converters

  /**
   * `convertYUVToRGB(byte[], int, int, int[])`: converts an NV21 frame (luma
   * plane, then interleaved V/U pairs at half resolution) into `rgbOutput`,
   * pixel by pixel with `ConvertPixel`. The array is passed in and its updated
   * contents returned.
   */
  method ConvertNV21(yuv: seq<Byte>, width: nat, height: nat, rgbOutput: seq<Int32Bits>)
    returns (out: seq<Int32Bits>)
    requires |yuv| >= Nv21Span(width, height)
    requires |rgbOutput| >= width * height
    ensures |out| == |rgbOutput|
    ensures forall j, i | 0 <= j < height && 0 <= i < width ::
              PixelIndex(width, j, i) < width * height &&
              out[PixelIndex(width, j, i)] == Nv21Pixel(ConvertPixel, yuv, width, height, j, i)
    ensures forall k | width * height <= k < |out| :: out[k] == rgbOutput[k]
  {
    out := ScanNv21(ConvertPixel, yuv, width, height, rgbOutput);
  }

  /**
   * `transformYUV420ToRGB`: converts a frame held as three planes with their
   * own row and pixel strides into `rgbOutput`, row-major, with `ConvertPixel`.
   */
  method TransformYUV420ToRGB(frame: PlanarFrame, rgbOutput: seq<Int32Bits>)
    returns (out: seq<Int32Bits>)
    requires frame.ReadsInBounds()
    requires |rgbOutput| >= frame.width * frame.height
    ensures |out| == |rgbOutput|
    ensures forall row, col | 0 <= row < frame.height && 0 <= col < frame.width ::
              PixelIndex(frame.width, row, col) < frame.width * frame.height &&
              out[PixelIndex(frame.width, row, col)] == frame.Pixel(ConvertPixel, row, col)
    ensures forall k | frame.width * frame.height <= k < |out| :: out[k] == rgbOutput[k]
  {
    out := ScanPlanar(ConvertPixel, frame, rgbOutput);
  }

  // ---------------------------------------------------------------------
  // Transformation recipe

  /** `(Math.abs(rotationAngle) + 90) % 180 == 0` under Java `int` semantics. */
  predicate IsTransposed(rotationAngle: Int32) {
    JavaRem(Wrap32(JavaAbs(rotationAngle) + 90), 180) == 0
  }

  /** The scale step: present only when the rotated source size differs from the destination. */
  function ScaleStep(adjustedWidth: int, adjustedHeight: int, dstWidth: int, dstHeight: int,
                     maintainAspectRatio: bool): Recipe
  {
    if adjustedWidth != dstWidth || adjustedHeight != dstHeight then
      var scaleX := Ratio(dstWidth, adjustedWidth);
      var scaleY := Ratio(dstHeight, adjustedHeight);
      if maintainAspectRatio then [PostScaleUniformMax(scaleX, scaleY)] else [PostScale(scaleX, scaleY)]
    else []
  }

  /** `createTransformationMatrix`, as the sequence of operations applied to an identity matrix. */
  function CreateTransformationMatrix(srcWidth: Int32, srcHeight: Int32, dstWidth: Int32, dstHeight: Int32,
                                      rotationAngle: Int32, maintainAspectRatio: bool): (m: Recipe)
    ensures rotationAngle == 0 ==> |m| <= 1 && forall k :: 0 <= k < |m| ==> m[k].IsScale()
    ensures rotationAngle != 0 ==>
              && 3 <= |m| <= 4
              && m[0] == PostTranslate(Half(Wrap32(-(srcWidth as int))), Half(Wrap32(-(srcHeight as int))))
              && m[1] == PostRotate(rotationAngle)
              && m[|m| - 1] == PostTranslate(Half(dstWidth), Half(dstHeight))
              && (|m| == 4 ==> m[2].IsScale())
    ensures |m| <= 4
  {
    var rotate := if rotationAngle != 0 then
                    [PostTranslate(Half(Wrap32(-(srcWidth as int))), Half(Wrap32(-(srcHeight as int)))), PostRotate(rotationAngle)]
                  else [];
    var isTransposed := IsTransposed(rotationAngle);
    var adjustedWidth := if isTransposed then srcHeight else srcWidth;
    var adjustedHeight := if isTransposed then srcWidth else srcHeight;
    var scale := ScaleStep(adjustedWidth, adjustedHeight, dstWidth, dstHeight, maintainAspectRatio);
    var back := if rotationAngle != 0 then [PostTranslate(Half(dstWidth), Half(dstHeight))] else [];
    rotate + scale + back
  }

  /**
   * The scale step of the recipe: emitted exactly when the source size, with
   * width and height swapped for quarter turns, differs from the destination,
   * and then uniform exactly when the aspect ratio is kept.
   */
  lemma RecipeScale(srcWidth: Int32, srcHeight: Int32, dstWidth: Int32, dstHeight: Int32,
                    rotationAngle: Int32, maintainAspectRatio: bool)
    ensures var m := CreateTransformationMatrix(srcWidth, srcHeight, dstWidth, dstHeight,
                                                rotationAngle, maintainAspectRatio);
            var aw := if IsTransposed(rotationAngle) then srcHeight else srcWidth;
            var ah := if IsTransposed(rotationAngle) then srcWidth else srcHeight;
            && ((exists k :: 0 <= k < |m| && m[k].IsScale()) <==> (aw != dstWidth || ah != dstHeight))
            && (forall k :: 0 <= k < |m| && m[k].IsScale() ==>
                  && m[k].sx == Ratio(dstWidth, aw) && m[k].sy == Ratio(dstHeight, ah)
                  && (m[k].PostScaleUniformMax? <==> maintainAspectRatio))
  {
    var m := CreateTransformationMatrix(srcWidth, srcHeight, dstWidth, dstHeight, rotationAngle, maintainAspectRatio);
    var aw := if IsTransposed(rotationAngle) then srcHeight else srcWidth;
    var ah := if IsTransposed(rotationAngle) then srcWidth else srcHeight;
    var s := ScaleStep(aw, ah, dstWidth, dstHeight, maintainAspectRatio);
    var n := if rotationAngle != 0 then 2 else 0;
    assert m[n..n + |s|] == s;
    assert forall k :: 0 <= k < |m| && (k < n || k >= n + |s|) ==> !m[k].IsScale();
    if s != [] {
      assert m[n] == s[0] && s[0].IsScale();
    }
  }

  /** No rotation and equal sizes give the identity matrix: an empty recipe. */
  lemma IdentityRecipe(width: Int32, height: Int32, maintainAspectRatio: bool)
    ensures CreateTransformationMatrix(width, height, width, height, 0, maintainAspectRatio) == []
  {
  }

  /**
   * For angles that are not the most negative `int` and do not overflow when
   * 90 is added to their magnitude, the recipe transposes exactly on odd
   * quarter turns.
   */
  lemma TransposedOnOddQuarterTurns(rotationAngle: Int32)
    requires -0x8000_0000 + 90 < rotationAngle < 0x8000_0000 - 90
    ensures IsTransposed(rotationAngle) <==>
              (if rotationAngle < 0 then -rotationAngle else rotationAngle) % 180 == 90
  {
    var a := if rotationAngle < 0 then -rotationAngle else rotationAngle;
    assert JavaAbs(rotationAngle) == a;
    Wrap32InRange(a + 90);
    assert JavaRem(a + 90, 180) == (a + 90) % 180;
    QuarterTurnRemainder(a);
  }

  /** a + 90 is a multiple of 180 exactly when a leaves remainder 90. */
  lemma QuarterTurnRemainder(a: nat)
    ensures (a + 90) % 180 == 0 <==> a % 180 == 90
  {
    var q, r := a / 180, a % 180;
    if r >= 90 {
      DivModUnique(a + 90, 180, q + 1, r - 90);
    } else {
      DivModUnique(a + 90, 180, q, r + 90);
    }
  }
}
