/**
 * `ImageTransformer`, a second copy of the frame utilities with its own names:
 * the NV21 buffer size, the pixel conversion `yuvToRgb`, the NV21 converter
 * and `generateTransformationMatrix`. Each is written out as that class does
 * it, and each contract states that it agrees with its `ImageProcessor`
 * counterpart on every input.
 */
module ImageTransformer {
  import opened Bits
  import opened MatrixOps
  import opened FrameScan
  import ImageProcessor

  /** `MAX_COLOR_VALUE` of this class: the same 18-bit ceiling. */
  const MaxColorValue := 262143

  /** `computeYUVSize`, which repeats `ImageProcessor.computeYUVSize` term by term. */
  function ComputeYUVSize(width: nat, height: nat): (size: nat)
    ensures size == ImageProcessor.ComputeYUVSize(width, height)
  {
    var yPlane := width * height;
    var uvPlane := (width + 1) / 2 * ((height + 1) / 2) * 2;
    yPlane + uvPlane
  }

  /** `Math.min(MAX_COLOR_VALUE, Math.max(0, x))` */
  function ClampLevel(x: int): (c: int)
    ensures 0 <= c <= MaxColorValue
    ensures c == ImageProcessor.Clamp(x)
  {
    var lower := if 0 > x then 0 else x;
    if MaxColorValue < lower then MaxColorValue else lower
  }

  /**
   * `yuvToRgb`: the luma offset by 16 (never below 0), the chroma offset by
   * 128, the three fixed-point levels clamped and packed. It is the pixel
   * conversion of `ImageProcessor`: the same opaque pixel with the same three
   * channels.
   */
  function YuvToRgb(y: Byte, u: Byte, v: Byte): (p: Int32Bits)
    ensures p == ImageProcessor.Argb(0xFF, ImageProcessor.ChannelOf(ImageProcessor.RedLevel(y, v)),
                                     ImageProcessor.ChannelOf(ImageProcessor.GreenLevel(y, u, v)),
                                     ImageProcessor.ChannelOf(ImageProcessor.BlueLevel(y, u)))
  {
    var y0 := if y - 16 > 0 then y - 16 else 0;
    var u0, v0 := u - 128, v - 128;
    var yScaled := 1192 * y0;
    var r := ClampLevel(yScaled + 1634 * v0);
    var g := ClampLevel(yScaled - 833 * v0 - 400 * u0);
    var b := ClampLevel(yScaled + 2066 * u0);
    ScaledLevels(y, u, v);
    ImageProcessor.PackChannels(r, g, b)
  }

  /** The levels `yuvToRgb` computes from the offset inputs are `ImageProcessor`'s levels. */
  lemma ScaledLevels(y: Byte, u: Byte, v: Byte)
    ensures var yScaled := 1192 * (if y - 16 > 0 then y - 16 else 0);
            && yScaled + 1634 * (v - 128) == ImageProcessor.RedLevel(y, v)
            && yScaled - 833 * (v - 128) - 400 * (u - 128) == ImageProcessor.GreenLevel(y, u, v)
            && yScaled + 2066 * (u - 128) == ImageProcessor.BlueLevel(y, u)
  {
  }

  /** `yuvToRgb` and `ImageProcessor.convertYUVToRGB(int, int, int)` agree on every byte triple. */
  lemma SamePixel(y: Byte, u: Byte, v: Byte)
    ensures YuvToRgb(y, u, v) == ImageProcessor.ConvertPixel(y, u, v)
  {
  }

  /** Every pixel `yuvToRgb` makes is opaque, with each channel its clamped level over 1024. */
  lemma YuvToRgbChannels(y: Byte, u: Byte, v: Byte)
    ensures ImageProcessor.Alpha(YuvToRgb(y, u, v)) == 0xFF
    ensures ImageProcessor.Red(YuvToRgb(y, u, v)) == ImageProcessor.Clamp(ImageProcessor.RedLevel(y, v)) / 1024 <= 255
    ensures ImageProcessor.Green(YuvToRgb(y, u, v)) == ImageProcessor.Clamp(ImageProcessor.GreenLevel(y, u, v)) / 1024 <= 255
    ensures ImageProcessor.Blue(YuvToRgb(y, u, v)) == ImageProcessor.Clamp(ImageProcessor.BlueLevel(y, u)) / 1024 <= 255
  {
    SamePixel(y, u, v);
    ImageProcessor.PixelChannels(y, u, v);
  }

  /** Pixel by pixel, the two NV21 converters store the same value. */
  lemma SameNv21Pixels(yuv: seq<Byte>, width: nat, height: nat)
    requires |yuv| >= Nv21Span(width, height)
    ensures forall j, i | 0 <= j < height && 0 <= i < width ::
              Nv21Pixel(YuvToRgb, yuv, width, height, j, i)
              == Nv21Pixel(ImageProcessor.ConvertPixel, yuv, width, height, j, i)
  {
    forall j, i | 0 <= j < height && 0 <= i < width
      ensures Nv21Pixel(YuvToRgb, yuv, width, height, j, i)
              == Nv21Pixel(ImageProcessor.ConvertPixel, yuv, width, height, j, i)
    {
      SameNv21Pixel(yuv, width, height, j, i);
    }
  }

  lemma SameNv21Pixel(yuv: seq<Byte>, width: nat, height: nat, j: nat, i: nat)
    requires |yuv| >= Nv21Span(width, height) && j < height && i < width
    ensures Nv21Pixel(YuvToRgb, yuv, width, height, j, i)
            == Nv21Pixel(ImageProcessor.ConvertPixel, yuv, width, height, j, i)
  {
    PixelIndexBound(width, height, j, i);
    Nv21ChromaInBounds(width, height, j, i);
    var c := Nv21ChromaIndex(width, height, j, i);
    SamePixel(yuv[PixelIndex(width, j, i)], yuv[c + 1], yuv[c]);
  }

  /**
   * `convertYUVToRGB(byte[], int, int, int[])` of this class: the NV21 scan
   * with `yuvToRgb`. Every pixel it stores is the one `ImageProcessor`'s NV21
   * converter stores at the same index, and nothing past the frame changes, so
   * the two converters leave equal arrays.
   */
  method ConvertYUVToRGB(yuv: seq<Byte>, width: nat, height: nat, rgbOutput: seq<Int32Bits>)
    returns (out: seq<Int32Bits>)
    requires |yuv| >= Nv21Span(width, height)
    requires |rgbOutput| >= width * height
    ensures |out| == |rgbOutput|
    ensures forall j, i | 0 <= j < height && 0 <= i < width ::
              PixelIndex(width, j, i) < width * height &&
              out[PixelIndex(width, j, i)] == Nv21Pixel(ImageProcessor.ConvertPixel, yuv, width, height, j, i)
    ensures forall k | width * height <= k < |out| :: out[k] == rgbOutput[k]
  {
    out := ScanNv21(YuvToRgb, yuv, width, height, rgbOutput);
    SameNv21Pixels(yuv, width, height);
  }

  /**
   * `generateTransformationMatrix`, with this class's names for the same
   * steps; it builds the recipe `createTransformationMatrix` builds.
   */
  function GenerateTransformationMatrix(sourceWidth: Int32, sourceHeight: Int32,
                                        targetWidth: Int32, targetHeight: Int32,
                                        rotationAngle: Int32, preserveAspectRatio: bool): (m: Recipe)
    ensures m == ImageProcessor.CreateTransformationMatrix(sourceWidth, sourceHeight, targetWidth, targetHeight,
                                                           rotationAngle, preserveAspectRatio)
  {
    var centre := if rotationAngle != 0 then
                    [PostTranslate(Half(Wrap32(-(sourceWidth as int))), Half(Wrap32(-(sourceHeight as int)))),
                     PostRotate(rotationAngle)]
                  else [];
    var rotated := JavaRem(Wrap32(JavaAbs(rotationAngle) + 90), 180) == 0;
    var adjustedWidth := if rotated then sourceHeight else sourceWidth;
    var adjustedHeight := if rotated then sourceWidth else sourceHeight;
    var scale := if adjustedWidth != targetWidth || adjustedHeight != targetHeight then
                   var scaleX := Ratio(targetWidth, adjustedWidth);
                   var scaleY := Ratio(targetHeight, adjustedHeight);
                   [if preserveAspectRatio then PostScaleUniformMax(scaleX, scaleY) else PostScale(scaleX, scaleY)]
                 else [];
    var recentre := if rotationAngle != 0 then [PostTranslate(Half(targetWidth), Half(targetHeight))] else [];
    centre + scale + recentre
  }
}
