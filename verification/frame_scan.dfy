/**
 * The two row-major frame scans shared by `ImageProcessor` and
 * `ImageTransformer`: one over an NV21 byte buffer, one over three planes with
 * their own strides. Each stores, at position `row * width + col`, the pixel
 * the per-pixel converter makes of that position's Y, U and V bytes; the
 * converter is a parameter so that both classes' conversions share the scan.
 */
module FrameScan {
  import opened Bits

  /** A per-pixel conversion from (Y, U, V) bytes to a packed ARGB value. */
  type Converter = (Byte, Byte, Byte) -> Int32Bits

  // ---------------------------------------------------------------------
  // Row-major positions

  /** Position of pixel (row j, column i) in a row-major frame `width` pixels wide. */
  function PixelIndex(width: nat, j: nat, i: nat): nat {
    j * width + i
  }

  lemma MulMonotone(m: nat, x: nat, y: nat)
    requires x <= y
    ensures m * x <= m * y
  {
  }

  lemma MulSucc(j: nat, width: nat)
    ensures (j + 1) * width == j * width + width
  {
  }

  /** Pixel (row j, column i) lies inside a frame of height rows. */
  lemma PixelIndexBound(width: nat, height: nat, j: nat, i: nat)
    requires j < height && i <= width
    ensures j * width + i <= width * height
    ensures i < width ==> j * width + i < width * height
  {
    MulMonotone(width, j + 1, height);
  }

  /**
   * In a row-major buffer made of the first rows - 1 rows followed by the
   * last one, pixel (r, c) comes from the prefix unless r is the last row.
   */
  lemma RowMajorAppend<T>(prefix: seq<T>, last: seq<T>, width: nat, rows: nat, r: nat, c: nat)
    requires r < rows && c < width && |prefix| == (rows - 1) * width && |last| == width
    ensures |prefix + last| == rows * width && PixelIndex(width, r, c) < |prefix + last|
    ensures r < rows - 1 ==> PixelIndex(width, r, c) < |prefix| &&
                             (prefix + last)[PixelIndex(width, r, c)] == prefix[PixelIndex(width, r, c)]
    ensures r == rows - 1 ==> (prefix + last)[PixelIndex(width, r, c)] == last[c]
  {
    MulSucc(rows - 1, width);
    PixelIndexBound(width, rows, r, c);
    if r < rows - 1 {
      PixelIndexBound(width, rows - 1, r, c);
    }
  }

  // ---------------------------------------------------------------------
  // NV21 layout

  /**
   * One past the last byte the NV21 scan reads: the luma plane, then for the
   * last row pair one V/U byte pair per two columns.
   */
  function Nv21Span(width: nat, height: nat): nat {
    if width == 0 || height == 0 then 0
    else width * height + (height - 1) / 2 * width + 2 * ((width + 1) / 2)
  }

  /** The index of the V byte shared by the 2x2 block holding pixel (row j, column i); U follows it. */
  function Nv21ChromaIndex(width: nat, height: nat, j: nat, i: nat): nat {
    width * height + j / 2 * width + 2 * (i / 2)
  }

  /** Every chroma read of the NV21 scan lies inside `Nv21Span`. */
  lemma Nv21ChromaInBounds(width: nat, height: nat, j: nat, i: nat)
    requires j < height && i < width
    ensures Nv21ChromaIndex(width, height, j, i) + 1 < Nv21Span(width, height)
  {
    MulMonotone(width, j / 2, (height - 1) / 2);
  }

  /**
   * Pixel i of a row whose luma starts at `lumaStart` and whose V/U pairs
   * start at `chromaStart`: columns 2c and 2c + 1 share the pair at 2c.
   */
  function Nv21RowPixel(convert: Converter, yuv: seq<Byte>, lumaStart: nat, chromaStart: nat, i: nat): Int32Bits
    requires lumaStart + i < |yuv| && chromaStart + 2 * (i / 2) + 1 < |yuv|
  {
    var c := chromaStart + 2 * (i / 2);
    convert(yuv[lumaStart + i], yuv[c + 1], yuv[c])
  }

  /** The first n pixels of such a row. */
  function Nv21RowPixels(convert: Converter, yuv: seq<Byte>, lumaStart: nat, chromaStart: nat, n: nat)
    : (row: seq<Int32Bits>)
    requires lumaStart + n <= |yuv| && (n == 0 || chromaStart + 2 * ((n - 1) / 2) + 1 < |yuv|)
    ensures |row| == n
    ensures forall i | 0 <= i < n :: row[i] == Nv21RowPixel(convert, yuv, lumaStart, chromaStart, i)
  {
    if n == 0 then []
    else Nv21RowPixels(convert, yuv, lumaStart, chromaStart, n - 1)
         + [Nv21RowPixel(convert, yuv, lumaStart, chromaStart, n - 1)]
  }

  /**
   * The pixel the NV21 scan stores for row j, column i: the luma byte at
   * `j * width + i` with the V/U pair of its 2x2 block.
   */
  function Nv21Pixel(convert: Converter, yuv: seq<Byte>, width: nat, height: nat, j: nat, i: nat): Int32Bits
    requires j < height && i < width && |yuv| >= Nv21Span(width, height)
  {
    PixelIndexBound(width, height, j, i);
    Nv21ChromaInBounds(width, height, j, i);
    var c := Nv21ChromaIndex(width, height, j, i);
    convert(yuv[PixelIndex(width, j, i)], yuv[c + 1], yuv[c])
  }

  /** Bounds of the reads for one whole row. */
  lemma Nv21RowInBounds(width: nat, height: nat, j: nat)
    requires j < height
    ensures 0 <= j * width && 0 <= j / 2 * width && 0 <= width * height
    ensures j * width + width <= Nv21Span(width, height)
    ensures width == 0 || width * height + j / 2 * width + 2 * ((width - 1) / 2) + 1 < Nv21Span(width, height)
  {
    PixelIndexBound(width, height, j, width);
    if width > 0 {
      Nv21ChromaInBounds(width, height, j, width - 1);
    }
  }

  /** The pixels the NV21 scan stores for row j. */
  function Nv21Row(convert: Converter, yuv: seq<Byte>, width: nat, height: nat, j: nat): (row: seq<Int32Bits>)
    requires j < height && |yuv| >= Nv21Span(width, height)
    ensures |row| == width
    ensures forall i | 0 <= i < width :: row[i] == Nv21Pixel(convert, yuv, width, height, j, i)
  {
    Nv21RowInBounds(width, height, j);
    Nv21RowPixels(convert, yuv, j * width, width * height + j / 2 * width, width)
  }

  /** The pixels the NV21 scan stores for the first j rows. */
  function Nv21Rows(convert: Converter, yuv: seq<Byte>, width: nat, height: nat, j: nat): (rows: seq<Int32Bits>)
    requires j <= height && |yuv| >= Nv21Span(width, height)
  {
    if j == 0 then []
    else Nv21Rows(convert, yuv, width, height, j - 1) + Nv21Row(convert, yuv, width, height, j - 1)
  }

  lemma {:induction false} Nv21RowsLength(convert: Converter, yuv: seq<Byte>, width: nat, height: nat, j: nat)
    requires j <= height && |yuv| >= Nv21Span(width, height)
    ensures |Nv21Rows(convert, yuv, width, height, j)| == j * width
  {
    if j > 0 {
      Nv21RowsLength(convert, yuv, width, height, j - 1);
      assert (j - 1) * width + width == j * width;
    }
  }

  lemma {:induction false} Nv21RowsAt(convert: Converter, yuv: seq<Byte>, width: nat, height: nat,
                                      j: nat, jj: nat, ii: nat)
    requires jj < j <= height && ii < width && |yuv| >= Nv21Span(width, height)
    ensures var rows := Nv21Rows(convert, yuv, width, height, j);
      |rows| == j * width && PixelIndex(width, jj, ii) < |rows| &&
      rows[PixelIndex(width, jj, ii)] == Nv21Pixel(convert, yuv, width, height, jj, ii)
  {
    Nv21RowsLength(convert, yuv, width, height, j - 1);
    var prefix := Nv21Rows(convert, yuv, width, height, j - 1);
    var row := Nv21Row(convert, yuv, width, height, j - 1);
    assert Nv21Rows(convert, yuv, width, height, j) == prefix + row;
    RowMajorAppend(prefix, row, width, j, jj, ii);
    if jj < j - 1 {
      Nv21RowsAt(convert, yuv, width, height, j - 1, jj, ii);
    }
  }

  /** A buffer that starts with all rows holds every pixel at its row-major position. */
  lemma Nv21RowsComplete(convert: Converter, yuv: seq<Byte>, width: nat, height: nat, out: seq<Int32Bits>)
    requires |yuv| >= Nv21Span(width, height)
    requires width * height <= |out| && out[..width * height] == Nv21Rows(convert, yuv, width, height, height)
    ensures forall j, i | 0 <= j < height && 0 <= i < width ::
              PixelIndex(width, j, i) < width * height &&
              out[PixelIndex(width, j, i)] == Nv21Pixel(convert, yuv, width, height, j, i)
  {
    forall j, i | 0 <= j < height && 0 <= i < width
      ensures PixelIndex(width, j, i) < width * height &&
              out[PixelIndex(width, j, i)] == Nv21Pixel(convert, yuv, width, height, j, i)
    {
      PixelIndexBound(width, height, j, i);
      Nv21RowsAt(convert, yuv, width, height, height, j, i);
      var k := PixelIndex(width, j, i);
      assert out[k] == out[..width * height][k];
    }
  }

  /** Storing x at the end of a buffer prefix extends the prefix by x. */
  lemma StoreExtends<T>(s: seq<T>, index: nat, x: T, front: seq<T>, done: seq<T>)
    requires index < |s| && s[..index] == front + done
    ensures s[index := x][..index + 1] == front + (done + [x])
  {
    assert s[index := x][..index + 1] == s[..index] + [x];
  }

  /** Storing at `index` leaves everything after it as it was. */
  lemma AfterStore<T>(s: seq<T>, index: nat, x: T, original: seq<T>)
    requires index < |s| == |original| && s[index..] == original[index..]
    ensures s[index := x][index + 1..] == original[index + 1..]
  {
    assert s[index + 1..] == s[index..][1..];
  }

  /**
   * Where the row scan stands before column i: `uvIndex` is past the V/U pairs
   * read so far, and after an even column `v` and `u` hold the pair just read.
   */
  predicate Nv21Cursor(yuv: seq<Byte>, chromaStart: nat, i: nat, uvIndex: nat, u: Byte, v: Byte) {
    && uvIndex == chromaStart + i + i % 2
    && (i % 2 == 1 ==> 2 <= uvIndex <= |yuv| && v == yuv[uvIndex - 2] && u == yuv[uvIndex - 1])
  }

  /**
   * One column of the row scan: on an even column the next V/U pair is read,
   * then the pixel is converted.
   */
  method Nv21Column(convert: Converter, yuv: seq<Byte>, lumaStart: nat, chromaStart: nat, width: nat, i: nat,
                    uvIndex: nat, u: Byte, v: Byte)
    returns (pixel: Int32Bits, uvIndex': nat, u': Byte, v': Byte)
    requires i < width && lumaStart + width <= |yuv| && chromaStart + 2 * ((width - 1) / 2) + 1 < |yuv|
    requires Nv21Cursor(yuv, chromaStart, i, uvIndex, u, v)
    ensures Nv21Cursor(yuv, chromaStart, i + 1, uvIndex', u', v')
    ensures pixel == Nv21RowPixel(convert, yuv, lumaStart, chromaStart, i)
  {
    assert i / 2 <= (width - 1) / 2;
    var y := yuv[lumaStart + i];
    uvIndex', u', v' := uvIndex, u, v;
    if i % 2 == 0 {
      v' := yuv[uvIndex'];
      u' := yuv[uvIndex' + 1];
      uvIndex' := uvIndex' + 2;
    }
    pixel := convert(y, u', v');
  }

  /**
   * One row of the NV21 scan: `width` pixels stored from `lumaStart` on, with
   * a new V/U pair read from `chromaStart` onward before every even column.
   */
  method ScanNv21Row(convert: Converter, yuv: seq<Byte>, lumaStart: nat, chromaStart: nat, width: nat,
                     rgbOutput: seq<Int32Bits>)
    returns (out: seq<Int32Bits>)
    requires lumaStart + width <= |yuv| && lumaStart + width <= |rgbOutput|
    requires width == 0 || chromaStart + 2 * ((width - 1) / 2) + 1 < |yuv|
    ensures |out| == |rgbOutput|
    ensures out[..lumaStart + width] == rgbOutput[..lumaStart]
                                        + Nv21RowPixels(convert, yuv, lumaStart, chromaStart, width)
    ensures out[lumaStart + width..] == rgbOutput[lumaStart + width..]
  {
    out := rgbOutput;
    var index, uvIndex := lumaStart, chromaStart;
    var u: Byte, v: Byte := 0, 0;
    var i := 0;
    while i < width
      invariant 0 <= i <= width
      invariant index == lumaStart + i
      invariant Nv21Cursor(yuv, chromaStart, i, uvIndex, u, v)
      invariant |out| == |rgbOutput|
      invariant out[..index] == rgbOutput[..lumaStart] + Nv21RowPixels(convert, yuv, lumaStart, chromaStart, i)
      invariant out[index..] == rgbOutput[index..]
    {
      var pixel;
      pixel, uvIndex, u, v := Nv21Column(convert, yuv, lumaStart, chromaStart, width, i, uvIndex, u, v);
      ghost var before := out;
      out := out[index := pixel];
      StoreExtends(before, index, pixel, rgbOutput[..lumaStart],
                   Nv21RowPixels(convert, yuv, lumaStart, chromaStart, i));
      AfterStore(before, index, pixel, rgbOutput);
      i := i + 1;
      index := index + 1;
    }
  }

  /** A buffer holding rows 0..j-1 and then row j holds rows 0..j. */
  lemma Nv21RowsExtend(convert: Converter, yuv: seq<Byte>, width: nat, height: nat, j: nat,
                       lumaStart: nat, chromaStart: nat, before: seq<Int32Bits>, after: seq<Int32Bits>)
    requires j < height && |yuv| >= Nv21Span(width, height)
    requires lumaStart == j * width && chromaStart == width * height + j / 2 * width
    requires lumaStart + width <= |yuv| && (width == 0 || chromaStart + 2 * ((width - 1) / 2) + 1 < |yuv|)
    requires lumaStart <= |before| && lumaStart + width <= |after|
    requires before[..lumaStart] == Nv21Rows(convert, yuv, width, height, j)
    requires after[..lumaStart + width]
             == before[..lumaStart] + Nv21RowPixels(convert, yuv, lumaStart, chromaStart, width)
    ensures after[..lumaStart + width] == Nv21Rows(convert, yuv, width, height, j + 1)
  {
    assert Nv21Row(convert, yuv, width, height, j) == Nv21RowPixels(convert, yuv, lumaStart, chromaStart, width);
  }

  /** Before row j of the NV21 scan, its reads and writes are in bounds. */
  lemma Nv21RowStart(width: nat, height: nat, j: nat, lumaStart: int, chromaStart: int, yuvLength: nat, outLength: nat)
    requires j < height && yuvLength >= Nv21Span(width, height) && outLength >= width * height
    requires lumaStart == j * width && chromaStart == width * height + j / 2 * width
    ensures 0 <= lumaStart && 0 <= chromaStart
    ensures lumaStart + width <= yuvLength && lumaStart + width <= outLength
    ensures width == 0 || chromaStart + 2 * ((width - 1) / 2) + 1 < yuvLength
  {
    Nv21RowInBounds(width, height, j);
    PixelIndexBound(width, height, j, width);
  }

  /** After row j of the NV21 scan, the loop invariant holds for row j + 1. */
  lemma Nv21Step(convert: Converter, yuv: seq<Byte>, width: nat, height: nat, j: nat,
                 lumaStart: nat, chromaStart: nat,
                 before: seq<Int32Bits>, after: seq<Int32Bits>, rgbOutput: seq<Int32Bits>)
    requires j < height && |yuv| >= Nv21Span(width, height)
    requires lumaStart == j * width && chromaStart == width * height + j / 2 * width
    requires lumaStart + width <= |yuv| && (width == 0 || chromaStart + 2 * ((width - 1) / 2) + 1 < |yuv|)
    requires lumaStart + width <= |before| == |after| == |rgbOutput|
    requires before[..lumaStart] == Nv21Rows(convert, yuv, width, height, j)
    requires before[lumaStart..] == rgbOutput[lumaStart..]
    requires after[..lumaStart + width]
             == before[..lumaStart] + Nv21RowPixels(convert, yuv, lumaStart, chromaStart, width)
    requires after[lumaStart + width..] == before[lumaStart + width..]
    ensures lumaStart + width == (j + 1) * width <= width * height
    ensures after[..lumaStart + width] == Nv21Rows(convert, yuv, width, height, j + 1)
    ensures after[lumaStart + width..] == rgbOutput[lumaStart + width..]
  {
    PixelIndexBound(width, height, j, width);
    MulSucc(j, width);
    Nv21RowsExtend(convert, yuv, width, height, j, lumaStart, chromaStart, before, after);
    AfterRow(before, after, lumaStart, width, rgbOutput);
  }

  /** When the row loop exits, the buffer holds the whole frame and nothing past it changed. */
  lemma Nv21ScanDone(convert: Converter, yuv: seq<Byte>, width: nat, height: nat, j: nat,
                     out: seq<Int32Bits>, rgbOutput: seq<Int32Bits>)
    requires |yuv| >= Nv21Span(width, height)
    requires j == height && j * width <= |out| == |rgbOutput|
    requires out[..j * width] == Nv21Rows(convert, yuv, width, height, j)
    requires out[j * width..] == rgbOutput[j * width..]
    ensures forall j, i | 0 <= j < height && 0 <= i < width ::
              PixelIndex(width, j, i) < width * height &&
              out[PixelIndex(width, j, i)] == Nv21Pixel(convert, yuv, width, height, j, i)
    ensures forall k | width * height <= k < |out| :: out[k] == rgbOutput[k]
  {
    assert j * width == width * height;
    Nv21RowsComplete(convert, yuv, width, height, out);
    forall k | width * height <= k < |out|
      ensures out[k] == rgbOutput[k]
    {
      assert out[k] == out[j * width..][k - j * width];
    }
  }

  /** The row after `start` was replaced; what follows it is still the original. */
  lemma AfterRow<T>(before: seq<T>, after: seq<T>, start: nat, width: nat, original: seq<T>)
    requires start + width <= |before| == |after| == |original|
    requires before[start..] == original[start..]
    requires after[start + width..] == before[start + width..]
    ensures after[start + width..] == original[start + width..]
  {
    assert before[start + width..] == before[start..][width..];
  }

  /**
   * The NV21 scan: row j reads its V/U pairs from `width * height + (j / 2) * width`
   * onward, so each pair serves a 2x2 block. The output array is passed in and
   * its updated contents returned.
   */
  method ScanNv21(convert: Converter, yuv: seq<Byte>, width: nat, height: nat, rgbOutput: seq<Int32Bits>)
    returns (out: seq<Int32Bits>)
    requires |yuv| >= Nv21Span(width, height)
    requires |rgbOutput| >= width * height
    ensures |out| == |rgbOutput|
    ensures forall j, i | 0 <= j < height && 0 <= i < width ::
              PixelIndex(width, j, i) < width * height &&
              out[PixelIndex(width, j, i)] == Nv21Pixel(convert, yuv, width, height, j, i)
    ensures forall k | width * height <= k < |out| :: out[k] == rgbOutput[k]
  {
    out := rgbOutput;
    var j, index := 0, 0;
    while j < height
      invariant 0 <= j <= height
      invariant index == j * width <= |out|
      invariant |out| == |rgbOutput|
      invariant out[..index] == Nv21Rows(convert, yuv, width, height, j)
      invariant out[index..] == rgbOutput[index..]
    {
      out := ScanNv21Rows(convert, yuv, width, height, j, index, out, rgbOutput);
      j := j + 1;
      index := index + width;
    }
    Nv21ScanDone(convert, yuv, width, height, j, out, rgbOutput);
  }

  /** One pass of the row loop: row j's luma starts at `lumaStart`, its chroma at `width * height + j / 2 * width`. */
  method ScanNv21Rows(convert: Converter, yuv: seq<Byte>, width: nat, height: nat, j: nat, lumaStart: nat,
                      before: seq<Int32Bits>, rgbOutput: seq<Int32Bits>)
    returns (out: seq<Int32Bits>)
    requires j < height && |yuv| >= Nv21Span(width, height) && |before| == |rgbOutput| >= width * height
    requires lumaStart == j * width <= |before|
    requires before[..lumaStart] == Nv21Rows(convert, yuv, width, height, j)
    requires before[lumaStart..] == rgbOutput[lumaStart..]
    ensures |out| == |rgbOutput|
    ensures lumaStart + width == (j + 1) * width <= |out|
    ensures out[..lumaStart + width] == Nv21Rows(convert, yuv, width, height, j + 1)
    ensures out[lumaStart + width..] == rgbOutput[lumaStart + width..]
  {
    PixelIndexBound(width, height, j, width);
    MulSucc(j, width);
    var uvIndex := width * height + j / 2 * width;
    Nv21RowStart(width, height, j, lumaStart, uvIndex, |yuv|, |before|);
    out := ScanNv21Row(convert, yuv, lumaStart, uvIndex, width, before);
    Nv21Step(convert, yuv, width, height, j, lumaStart, uvIndex, before, out, rgbOutput);
  }

  // ---------------------------------------------------------------------
  // Planar layout

  /** The luma byte of pixel (row, col) in a planar frame. */
  function LumaIndex(luminanceStride: int, row: nat, col: nat): int {
    luminanceStride * row + col
  }

  /** The offset of both chroma bytes of pixel (row, col) in their planes. */
  function ChromaOffset(chromaStride: int, chromaPixelStride: int, row: nat, col: nat): int {
    chromaStride * (row / 2) + col / 2 * chromaPixelStride
  }

  /** A frame held as three planes with their own row and pixel strides. */
  datatype PlanarFrame = PlanarFrame(
    luminance: seq<Byte>, chromaU: seq<Byte>, chromaV: seq<Byte>,
    width: nat, height: nat,
    luminanceStride: int, chromaStride: int, chromaPixelStride: int)
  {
    /** Every read of the planar scan is inside its array. */
    predicate ReadsInBounds() {
      forall row: nat, col: nat | row < height && col < width ::
        && 0 <= LumaIndex(luminanceStride, row, col) < |luminance|
        && 0 <= ChromaOffset(chromaStride, chromaPixelStride, row, col) < |chromaU|
        && 0 <= ChromaOffset(chromaStride, chromaPixelStride, row, col) < |chromaV|
    }

    /** The pixel the planar scan stores for (row, col). */
    function Pixel(convert: Converter, row: nat, col: nat): Int32Bits
      requires ReadsInBounds() && row < height && col < width
    {
      var c := ChromaOffset(chromaStride, chromaPixelStride, row, col);
      convert(luminance[LumaIndex(luminanceStride, row, col)], chromaU[c], chromaV[c])
    }

    /** The first col pixels stored for a row. */
    function Row(convert: Converter, row: nat, col: nat): (r: seq<Int32Bits>)
      requires ReadsInBounds() && row < height && col <= width
      ensures |r| == col
      ensures forall c | 0 <= c < col :: r[c] == Pixel(convert, row, c)
    {
      if col == 0 then [] else Row(convert, row, col - 1) + [Pixel(convert, row, col - 1)]
    }

    /** The pixels stored for the first `rows` rows. */
    function Rows(convert: Converter, rows: nat): (r: seq<Int32Bits>)
      requires ReadsInBounds() && rows <= height
    {
      if rows == 0 then [] else Rows(convert, rows - 1) + Row(convert, rows - 1, width)
    }

    lemma {:induction false} RowsLength(convert: Converter, rows: nat)
      requires ReadsInBounds() && rows <= height
      ensures |Rows(convert, rows)| == rows * width
    {
      if rows > 0 {
        RowsLength(convert, rows - 1);
        assert (rows - 1) * width + width == rows * width;
      }
    }

    lemma {:induction false} RowsAt(convert: Converter, rows: nat, r: nat, c: nat)
      requires ReadsInBounds() && r < rows <= height && c < width
      ensures var all := Rows(convert, rows);
        |all| == rows * width && PixelIndex(width, r, c) < |all| &&
        all[PixelIndex(width, r, c)] == Pixel(convert, r, c)
    {
      RowsLength(convert, rows - 1);
      var prefix := Rows(convert, rows - 1);
      var last := Row(convert, rows - 1, width);
      assert Rows(convert, rows) == prefix + last;
      RowMajorAppend(prefix, last, width, rows, r, c);
      if r < rows - 1 {
        RowsAt(convert, rows - 1, r, c);
      }
    }
  }

  /** A buffer that starts with all rows of a planar frame holds every pixel at its row-major position. */
  lemma PlanarRowsComplete(convert: Converter, frame: PlanarFrame, out: seq<Int32Bits>)
    requires frame.ReadsInBounds()
    requires frame.width * frame.height <= |out|
    requires out[..frame.width * frame.height] == frame.Rows(convert, frame.height)
    ensures forall row, col | 0 <= row < frame.height && 0 <= col < frame.width ::
              PixelIndex(frame.width, row, col) < frame.width * frame.height &&
              out[PixelIndex(frame.width, row, col)] == frame.Pixel(convert, row, col)
  {
    forall row, col | 0 <= row < frame.height && 0 <= col < frame.width
      ensures PixelIndex(frame.width, row, col) < frame.width * frame.height &&
              out[PixelIndex(frame.width, row, col)] == frame.Pixel(convert, row, col)
    {
      PixelIndexBound(frame.width, frame.height, row, col);
      frame.RowsAt(convert, frame.height, row, col);
      var k := PixelIndex(frame.width, row, col);
      assert out[k] == out[..frame.width * frame.height][k];
    }
  }

  /** A buffer holding rows 0..row-1 and then row `row` holds rows 0..row. */
  lemma PlanarRowsExtend(convert: Converter, frame: PlanarFrame, row: nat, start: nat,
                         before: seq<Int32Bits>, after: seq<Int32Bits>)
    requires frame.ReadsInBounds() && row < frame.height
    requires start <= |before| && start + frame.width <= |after|
    requires before[..start] == frame.Rows(convert, row)
    requires after[..start + frame.width] == before[..start] + frame.Row(convert, row, frame.width)
    ensures after[..start + frame.width] == frame.Rows(convert, row + 1)
  {
  }

  /** After row `row` of the planar scan, the loop invariant holds for the next row. */
  lemma PlanarStep(convert: Converter, frame: PlanarFrame, row: nat, start: nat,
                   before: seq<Int32Bits>, after: seq<Int32Bits>, rgbOutput: seq<Int32Bits>)
    requires frame.ReadsInBounds() && row < frame.height && start == row * frame.width
    requires start + frame.width <= |before| == |after| == |rgbOutput|
    requires before[..start] == frame.Rows(convert, row)
    requires before[start..] == rgbOutput[start..]
    requires after[..start + frame.width] == before[..start] + frame.Row(convert, row, frame.width)
    requires after[start + frame.width..] == before[start + frame.width..]
    ensures start + frame.width == (row + 1) * frame.width <= frame.width * frame.height
    ensures after[..start + frame.width] == frame.Rows(convert, row + 1)
    ensures after[start + frame.width..] == rgbOutput[start + frame.width..]
  {
    PixelIndexBound(frame.width, frame.height, row, frame.width);
    MulSucc(row, frame.width);
    PlanarRowsExtend(convert, frame, row, start, before, after);
    AfterRow(before, after, start, frame.width, rgbOutput);
  }

  /** When the row loop exits, the buffer holds the whole frame and nothing past it changed. */
  lemma PlanarScanDone(convert: Converter, frame: PlanarFrame, width: nat, height: nat,
                       out: seq<Int32Bits>, rgbOutput: seq<Int32Bits>)
    requires frame.ReadsInBounds() && width == frame.width && height == frame.height
    requires height * width <= |out| == |rgbOutput|
    requires out[..height * width] == frame.Rows(convert, height)
    requires out[height * width..] == rgbOutput[height * width..]
    ensures forall r, c | 0 <= r < height && 0 <= c < width ::
              PixelIndex(width, r, c) < width * height &&
              out[PixelIndex(width, r, c)] == frame.Pixel(convert, r, c)
    ensures forall k | width * height <= k < |out| :: out[k] == rgbOutput[k]
  {
    var n := height * width;
    assert n == width * height;
    PlanarRowsComplete(convert, frame, out);
    forall k | width * height <= k < |out|
      ensures out[k] == rgbOutput[k]
    {
      assert out[k] == out[n..][k - n];
    }
  }

  /** One row of the planar scan, stored from `start` on. */
  method ScanPlanarRow(convert: Converter, frame: PlanarFrame, row: nat, start: nat, rgbOutput: seq<Int32Bits>)
    returns (out: seq<Int32Bits>)
    requires frame.ReadsInBounds() && row < frame.height
    requires start + frame.width <= |rgbOutput|
    ensures |out| == |rgbOutput|
    ensures out[..start + frame.width] == rgbOutput[..start] + frame.Row(convert, row, frame.width)
    ensures out[start + frame.width..] == rgbOutput[start + frame.width..]
  {
    out := rgbOutput;
    var lumRowOffset := frame.luminanceStride * row;
    var chromaRowOffset := frame.chromaStride * (row / 2);
    var pixelIndex := start;
    var col := 0;
    while col < frame.width
      invariant 0 <= col <= frame.width
      invariant pixelIndex == start + col
      invariant |out| == |rgbOutput|
      invariant out[..pixelIndex] == rgbOutput[..start] + frame.Row(convert, row, col)
      invariant out[pixelIndex..] == rgbOutput[pixelIndex..]
    {
      var chromaOffset := chromaRowOffset + col / 2 * frame.chromaPixelStride;
      assert chromaOffset == ChromaOffset(frame.chromaStride, frame.chromaPixelStride, row, col);
      assert lumRowOffset + col == LumaIndex(frame.luminanceStride, row, col);
      var pixel := convert(frame.luminance[lumRowOffset + col],
                           frame.chromaU[chromaOffset], frame.chromaV[chromaOffset]);
      ghost var before := out;
      out := out[pixelIndex := pixel];
      StoreExtends(before, pixelIndex, pixel, rgbOutput[..start], frame.Row(convert, row, col));
      AfterStore(before, pixelIndex, pixel, rgbOutput);
      pixelIndex := pixelIndex + 1;
      col := col + 1;
    }
  }

  /**
   * The planar scan: row by row, the luma byte at `luminanceStride * row + col`
   * and the chroma bytes at `chromaStride * (row / 2) + (col / 2) * chromaPixelStride`
   * are converted and stored at the running index.
   */
  method ScanPlanar(convert: Converter, frame: PlanarFrame, rgbOutput: seq<Int32Bits>)
    returns (out: seq<Int32Bits>)
    requires frame.ReadsInBounds()
    requires |rgbOutput| >= frame.width * frame.height
    ensures |out| == |rgbOutput|
    ensures forall row, col | 0 <= row < frame.height && 0 <= col < frame.width ::
              PixelIndex(frame.width, row, col) < frame.width * frame.height &&
              out[PixelIndex(frame.width, row, col)] == frame.Pixel(convert, row, col)
    ensures forall k | frame.width * frame.height <= k < |out| :: out[k] == rgbOutput[k]
  {
    var imageWidth, imageHeight := frame.width, frame.height;
    out := rgbOutput;
    var pixelIndex := 0;
    var row := 0;
    while row < imageHeight
      invariant 0 <= row <= imageHeight
      invariant pixelIndex == row * imageWidth <= |out|
      invariant |out| == |rgbOutput|
      invariant out[..pixelIndex] == frame.Rows(convert, row)
      invariant out[pixelIndex..] == rgbOutput[pixelIndex..]
    {
      PixelIndexBound(imageWidth, imageHeight, row, imageWidth);
      ghost var before := out;
      out := ScanPlanarRow(convert, frame, row, pixelIndex, out);
      PlanarStep(convert, frame, row, pixelIndex, before, out, rgbOutput);
      pixelIndex := pixelIndex + imageWidth;
      row := row + 1;
    }
    PlanarScanDone(convert, frame, imageWidth, row, out, rgbOutput);
  }
}
