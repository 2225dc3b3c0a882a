/**
 * `RealtimeRecognitionRepo`: the in-memory gallery of known faces backed by
 * the `faces` table, the nearest-match search over it, the packing of a
 * quantized model input and the shaping of a recognition result.
 *
 * The model inference itself is not modelled: its output, one row of
 * `EMBEDDING_SIZE` floats, is a parameter of `ProcessImage`. Distances are
 * squared Euclidean distances over reals; `Math.sqrt` is monotone, so the
 * entry chosen is the one the code chooses.
 */
module RecognitionRepo {
  import opened Wrappers
  import opened Bits
  import opened Recognition
  import opened EmbeddingCodec
  import opened KnownFaces
  import FaceDatabase
  import ImageProcessor
  import FrameScan

  /** `EMBEDDING_SIZE`: the length of the model's output row. */
  const EmbeddingSize := 512

  /** `Float.MAX_VALUE`, (2 - 2^-23) * 2^127, the distance reported when nothing is matched. */
  const FloatMax: real := 340282346638528859811704183484516925440.0

  /** A `float[EMBEDDING_SIZE]` row as the model writes it. */
  type ModelOutput = v: Vector | |v| == EmbeddingSize witness seq(512, _ => 0.0)

  // ---------------------------------------------------------------------
  // Distances

  /**
   * The squared distance summed over the query's components only, in index
   * order; the stored row must be at least as long.
   */
  function SquaredDistance(query: Vector, stored: Vector): (d: real)
    requires |stored| >= |query|
    ensures d >= 0.0
  {
    if query == [] then 0.0
    else
      var n := |query| - 1;
      var diff := query[n] - stored[n];
      SquaredDistance(query[..n], stored) + diff * diff
  }

  /** Components of the stored row past the query's length take no part. */
  lemma {:induction false} DistanceIgnoresTail(query: Vector, stored: Vector, tail: Vector)
    requires |stored| >= |query|
    ensures SquaredDistance(query, stored + tail) == SquaredDistance(query, stored)
  {
    if query != [] {
      var n := |query| - 1;
      DistanceIgnoresTail(query[..n], stored, tail);
      assert (stored + tail)[n] == stored[n];
    }
  }

  /** A stored row that starts with the query is at distance zero. */
  lemma {:induction false} DistanceToSelf(query: Vector, stored: Vector)
    requires |stored| >= |query| && stored[..|query|] == query
    ensures SquaredDistance(query, stored) == 0.0
  {
    if query != [] {
      var n := |query| - 1;
      assert stored[..n] == query[..n] by {
        assert stored[..n] == stored[..n + 1][..n];
      }
      assert stored[n] == stored[..n + 1][n];
      DistanceToSelf(query[..n], stored);
      ZeroSquare(query[n] - stored[n]);
    }
  }

  /** A stored row whose prefix differs from the query is at a positive distance. */
  lemma {:induction false} MismatchIsFar(query: Vector, stored: Vector)
    requires |stored| >= |query| && stored[..|query|] != query
    ensures SquaredDistance(query, stored) > 0.0
  {
    assert query != [];
    var n := |query| - 1;
    var diff := query[n] - stored[n];
    var step := diff * diff;
    if stored[..n] != query[..n] {
      MismatchIsFar(query[..n], stored);
      SquareSign(diff, step);
    } else {
      assert query[n] != stored[n] by {
        assert stored[..n + 1] == stored[..n] + [stored[n]];
        assert query == query[..n] + [query[n]];
      }
      SquareSign(diff, step);
      GrowsPastZero(SquaredDistance(query[..n], stored), step, SquaredDistance(query, stored));
    }
  }

  /** Conversely to `DistanceToSelf`, distance zero means the stored row starts with the query. */
  lemma ZeroDistanceIsSelf(query: Vector, stored: Vector)
    requires |stored| >= |query| && SquaredDistance(query, stored) == 0.0
    ensures stored[..|query|] == query
  {
    if stored[..|query|] != query {
      MismatchIsFar(query, stored);
    }
  }

  lemma GrowsPastZero(prev: real, step: real, total: real)
    requires total == prev + step
    requires prev >= 0.0 && step > 0.0
    ensures total > 0.0
  {
  }

  /**
   * `s`, the square of `x`, is never negative and is zero only at zero. The
   * square is passed as its own variable: the solver reasons about `s`
   * linearly where it would not about `x * x`.
   */
  lemma SquareSign(x: real, s: real)
    requires s == x * x
    ensures s >= 0.0
    ensures s == 0.0 <==> x == 0.0
  {
    if x > 0.0 {
      ProductSign(x, x, s);
    } else if x < 0.0 {
      ProductSign(-x, -x, s);
    }
  }

  /** The product of two positive numbers, or of their negations, is positive. */
  lemma ProductSign(a: real, b: real, p: real)
    requires a > 0.0 && b > 0.0 && (p == a * b || p == (-a) * (-b))
    ensures p > 0.0
  {
  }

  /** Swapping the query and the stored row's prefix leaves the distance unchanged. */
  lemma {:induction false} DistanceSymmetric(query: Vector, stored: Vector)
    requires |stored| >= |query|
    ensures SquaredDistance(query, stored) == SquaredDistance(stored[..|query|], query)
  {
    if query != [] {
      var n := |query| - 1;
      var p := stored[..|query|];
      DistanceSymmetric(query[..n], stored);
      assert p[..n] == stored[..n];
      assert p[n] == stored[n];
      assert query[..n] + query[n..] == query;
      DistanceIgnoresTail(p[..n], query[..n], query[n..]);
      assert (query[n] - stored[n]) * (query[n] - stored[n]) == (stored[n] - query[n]) * (stored[n] - query[n]);
    }
  }

  lemma ZeroSquare(x: real)
    requires x == 0.0
    ensures x * x == 0.0
  {
  }

  /** The inner loop of `findClosestMatch`: `distance += diff * diff` over the query's indices. */
  method Distance(query: Vector, stored: Vector) returns (distance: real)
    requires |stored| >= |query|
    ensures distance == SquaredDistance(query, stored)
  {
    distance := 0.0;
    var i := 0;
    while i < |query|
      invariant 0 <= i <= |query|
      invariant distance == SquaredDistance(query[..i], stored)
    {
      var diff := query[i] - stored[i];
      assert query[..i + 1][..i] == query[..i];
      distance := distance + diff * diff;
      i := i + 1;
    }
    assert query[..i] == query;
  }

  // ---------------------------------------------------------------------
  // Nearest match

  /** `Pair<String, Float>`: the matched name and its distance. */
  datatype Match = Match(name: string, distance: real)

  /**
   * An entry the search can compare with the query: its feature vector is
   * present, has a row 0, and that row is at least as long as the query.
   * Any other entry makes the search throw.
   */
  predicate Comparable(query: Vector, e: Entry) {
    && e.data.featureVector.Some?
    && |e.data.featureVector.value| > 0
    && |e.data.featureVector.value[0]| >= |query|
  }

  /** The distance from the query to an entry's row 0. */
  function DistanceTo(query: Vector, e: Entry): real
    requires Comparable(query, e)
  {
    SquaredDistance(query, e.data.featureVector.value[0])
  }

  /** k is the first entry the search cannot compare. */
  predicate FirstIncomparable(query: Vector, g: Gallery, k: int) {
    && 0 <= k < |g|
    && !Comparable(query, g[k])
    && forall j | 0 <= j < k :: Comparable(query, g[j])
  }

  /** k is at the least distance, and no earlier entry is as close. */
  predicate FirstClosest(query: Vector, g: Gallery, k: int)
    requires forall j | 0 <= j < |g| :: Comparable(query, g[j])
  {
    && 0 <= k < |g|
    && (forall j | 0 <= j < |g| :: DistanceTo(query, g[k]) <= DistanceTo(query, g[j]))
    && (forall j | 0 <= j < k :: DistanceTo(query, g[j]) > DistanceTo(query, g[k]))
  }

  /** The first closest entry is determined by the gallery and the query: no other entry is one. */
  lemma FirstClosestUnique(query: Vector, g: Gallery, k: int, other: int)
    requires forall j | 0 <= j < |g| :: Comparable(query, g[j])
    requires FirstClosest(query, g, k) && 0 <= other < |g| && other != k
    ensures !FirstClosest(query, g, other)
  {
    if other < k {
      assert DistanceTo(query, g[other]) > DistanceTo(query, g[k]);
    } else {
      assert DistanceTo(query, g[k]) <= DistanceTo(query, g[other]);
    }
  }

  /**
   * `findClosestMatch`: entries in iteration order, each replacing the best
   * so far only when strictly closer, so the first of equally close entries
   * wins. It gives no match exactly when the gallery is empty. An entry that
   * cannot be compared throws (null vector, no row 0, a row shorter than the
   * query); the failure names the first such entry.
   */
  method FindClosestMatch(query: Vector, g: Gallery) returns (r: Result<Option<Match>, string>)
    ensures r.Failure? <==> exists k | 0 <= k < |g| :: !Comparable(query, g[k])
    ensures r.Failure? ==> exists k :: FirstIncomparable(query, g, k) && r.error == g[k].name
    ensures r.Success? ==> (r.value.None? <==> g == [])
    ensures r.Success? && r.value.Some? ==>
              exists k :: FirstClosest(query, g, k) && r.value.value == Match(g[k].name, DistanceTo(query, g[k]))
  {
    var best: Option<Match> := None;
    ghost var bestIndex := 0;
    var i := 0;
    while i < |g|
      invariant 0 <= i <= |g|
      invariant forall j | 0 <= j < i :: Comparable(query, g[j])
      invariant best.None? <==> i == 0
      invariant best.Some? ==> Leads(query, g, i, bestIndex, best.value)
    {
      var e := g[i];
      if !Comparable(query, e) {
        assert FirstIncomparable(query, g, i);
        return Failure(e.name);
      }
      var d := Distance(query, e.data.featureVector.value[0]);
      if best.None? || d < best.value.distance {
        best := Some(Match(e.name, d));
        bestIndex := i;
      }
      i := i + 1;
    }
    r := Success(best);
    if best.Some? {
      assert FirstClosest(query, g, bestIndex);
    }
  }

  /** After the first i entries, entry k is the first closest among them and m reports it. */
  predicate Leads(query: Vector, g: Gallery, i: int, k: int, m: Match)
    requires 0 <= i <= |g| && forall j | 0 <= j < i :: Comparable(query, g[j])
  {
    && 0 <= k < i
    && m == Match(g[k].name, DistanceTo(query, g[k]))
    && (forall j | 0 <= j < i :: DistanceTo(query, g[k]) <= DistanceTo(query, g[j]))
    && (forall j | 0 <= j < k :: DistanceTo(query, g[j]) > DistanceTo(query, g[k]))
  }

  // ---------------------------------------------------------------------
  // Model input

  /** The byte count `initialize` allocates: 1 * size * size * 3 channels * 1 or 4 bytes. */
  function BufferCapacity(inputSize: nat, isQuantized: bool): nat {
    1 * inputSize * inputSize * 3 * (if isQuantized then 1 else 4)
  }

  /** `(x >> k) & 0xFF` is byte k/8 of x. */
  lemma MaskedByte(x: nat, k: nat)
    ensures And(ShiftRight(x, k), 255) == x / Pow2(k) % 256
  {
    var q := x / Pow2(k);
    Pow2Values();
    assert q == q / 256 * Pow2(8) + q % 256;
    AndLow(q / 256, q % 256, 8);
  }

  /** The three bytes the quantized path writes for one pixel: its red, green and blue channels. */
  function PixelBytes(p: Int32Bits): (b: seq<Byte>)
    ensures |b| == 3
  {
    [ImageProcessor.Red(p), ImageProcessor.Green(p), ImageProcessor.Blue(p)]
  }

  /**
   * The source writes `(p >> 16) & 0xFF`, `(p >> 8) & 0xFF` and `p & 0xFF`,
   * each through a `(byte)` cast whose bit pattern is the unsigned value
   * here: exactly the pixel's red, green and blue channels.
   */
  lemma MaskedChannels(p: Int32Bits)
    ensures [And(ShiftRight(p, 16), 0xFF), And(ShiftRight(p, 8), 0xFF), And(ShiftRight(p, 0), 0xFF)] == PixelBytes(p)
  {
    Pow2Values();
    MaskedByte(p, 16);
    MaskedByte(p, 8);
    MaskedByte(p, 0);
  }

  /** The bytes of the pixels in order, three per pixel. */
  function Packed(pixels: seq<Int32Bits>): (bytes: seq<Byte>)
    ensures |bytes| == 3 * |pixels|
  {
    if pixels == [] then [] else Packed(pixels[..|pixels| - 1]) + PixelBytes(pixels[|pixels| - 1])
  }

  /** Pixel k's bytes are bytes 3k to 3k + 2 of the packing. */
  lemma {:induction false} PackedSlices(pixels: seq<Int32Bits>)
    ensures forall k | 0 <= k < |pixels| :: Packed(pixels)[3 * k..3 * k + 3] == PixelBytes(pixels[k])
  {
    if pixels != [] {
      var n := |pixels| - 1;
      PackedSlices(pixels[..n]);
      PackedExtends(pixels, Packed(pixels[..n]));
    }
  }

  lemma PackedExtends(pixels: seq<Int32Bits>, before: seq<Byte>)
    requires |pixels| > 0 && |before| == 3 * (|pixels| - 1)
    requires forall k | 0 <= k < |pixels| - 1 :: before[3 * k..3 * k + 3] == PixelBytes(pixels[k])
    ensures var bytes := before + PixelBytes(pixels[|pixels| - 1]);
            forall k | 0 <= k < |pixels| :: bytes[3 * k..3 * k + 3] == PixelBytes(pixels[k])
  {
    var bytes := before + PixelBytes(pixels[|pixels| - 1]);
    forall k | 0 <= k < |pixels|
      ensures bytes[3 * k..3 * k + 3] == PixelBytes(pixels[k])
    {
      if k < |pixels| - 1 {
        assert bytes[3 * k..3 * k + 3] == before[3 * k..3 * k + 3];
      } else {
        assert bytes[3 * k..3 * k + 3] == bytes[|before|..];
      }
    }
  }

  /**
   * The quantized branch of `processImage`'s fill loop: rows i, columns j,
   * pixel `i * inputSize + j`, three bytes each. It writes the pixels' bytes
   * in row-major order and fills the buffer `initialize` allocated exactly.
   */
  method QuantizeInput(pixels: seq<Int32Bits>, inputSize: nat) returns (bytes: seq<Byte>)
    requires |pixels| == inputSize * inputSize
    ensures |bytes| == BufferCapacity(inputSize, true)
    ensures forall k | 0 <= k < |pixels| :: bytes[3 * k..3 * k + 3] == PixelBytes(pixels[k])
  {
    bytes := [];
    var i, rowStart := 0, 0;
    while i < inputSize
      invariant 0 <= i <= inputSize
      invariant rowStart == i * inputSize <= |pixels|
      invariant bytes == Packed(pixels[..rowStart])
    {
      FrameScan.PixelIndexBound(inputSize, inputSize, i, inputSize);
      bytes := QuantizeRow(pixels, inputSize, rowStart, bytes);
      FrameScan.MulSucc(i, inputSize);
      i, rowStart := i + 1, rowStart + inputSize;
    }
    assert pixels[..rowStart] == pixels;
    PackedSlices(pixels);
  }

  /** One pass of the inner loop: the row of `width` pixels from `rowStart` on, appended in order. */
  method QuantizeRow(pixels: seq<Int32Bits>, width: nat, rowStart: nat, before: seq<Byte>) returns (bytes: seq<Byte>)
    requires rowStart + width <= |pixels|
    requires before == Packed(pixels[..rowStart])
    ensures bytes == Packed(pixels[..rowStart + width])
  {
    bytes := before;
    var j := 0;
    while j < width
      invariant 0 <= j <= width
      invariant bytes == Packed(pixels[..rowStart + j])
    {
      PackedSnoc(pixels, rowStart + j);
      bytes := bytes + PixelBytes(pixels[rowStart + j]);
      j := j + 1;
    }
  }

  /** Packing one more pixel appends its three bytes. */
  lemma PackedSnoc(pixels: seq<Int32Bits>, k: nat)
    requires k < |pixels|
    ensures Packed(pixels[..k + 1]) == Packed(pixels[..k]) + PixelBytes(pixels[k])
  {
    assert pixels[..k + 1][..k] == pixels[..k];
  }

  // ---------------------------------------------------------------------
  // Recognition result

  /**
   * `processImage` after inference: id "0", label "Unknown" and distance
   * `Float.MAX_VALUE` unless the gallery is non-empty, in which case the
   * closest entry's name and distance; an empty box; the model's output
   * attached as the feature vector exactly when `storeEmbedding` is set.
   * The search's failure propagates.
   */
  method ProcessImage(known: Gallery, embedding: ModelOutput, storeEmbedding: bool)
    returns (r: Result<RecognitionData, string>)
    ensures r.Failure? <==> exists k | 0 <= k < |known| :: !Comparable(embedding, known[k])
    ensures r.Success? ==>
              && r.value.identifier == Some("0")
              && r.value.boundingBox == Some(EmptyRect)
              && r.value.featureVector == (if storeEmbedding then Some([embedding]) else None)
    ensures known == [] ==> r.Success? && r.value.labelText == Some("Unknown") && r.value.confidenceScore == Some(FloatMax)
    ensures r.Success? && known != [] ==>
              exists k :: FirstClosest(embedding, known, k)
                          && r.value.labelText == Some(known[k].name)
                          && r.value.confidenceScore == Some(DistanceTo(embedding, known[k]))
  {
    var distance := FloatMax;
    var labelText := "Unknown";
    if known != [] {
      var closest := FindClosestMatch(embedding, known);
      if closest.Failure? {
        return Failure(closest.error);
      }
      if closest.value.Some? {
        labelText := closest.value.value.name;
        distance := closest.value.value.distance;
      }
    }
    var result := Detected("0", labelText, distance, EmptyRect);
    if storeEmbedding {
      result := result.WithFeatureVector(Some([embedding]));
    }
    r := Success(result);
  }

  // ---------------------------------------------------------------------
  // Gallery and table together

  /** The repository's state: the `faces` table and the `knownFaces` map. */
  datatype Repo = Repo(table: FaceDatabase.Table, known: Gallery)

  predicate Valid(repo: Repo) {
    FaceDatabase.Valid(repo.table) && UniqueNames(repo.known)
  }

  /** The constructor: the map starts as every stored face, read by `getAllFaces`. */
  function Open(t: FaceDatabase.Table, parse: Parse): (r: Result<Repo, string>)
    requires FaceDatabase.Valid(t)
    ensures r.Success? <==> forall i | 0 <= i < |t.rows| :: FaceDatabase.Decodes(t.rows[i], parse)
    ensures r.Success? ==> Valid(r.value) && r.value.table == t
    ensures r.Success? ==> r.value.known == FaceDatabase.LoadedAll(t.rows, parse)
    ensures r.Success? ==> forall i | 0 <= i < |t.rows| ::
              Get(r.value.known, t.rows[i].name) == Some(FaceDatabase.Loaded(t.rows[i], parse).data)
  {
    var g :- FaceDatabase.GetAllFaces(t, parse);
    OpenGets(t, parse, g);
    Success(Repo(t, g))
  }

  lemma OpenGets(t: FaceDatabase.Table, parse: Parse, g: Gallery)
    requires FaceDatabase.Valid(t) && FaceDatabase.GetAllFaces(t, parse) == Success(g)
    ensures forall i | 0 <= i < |t.rows| :: Get(g, t.rows[i].name) == Some(FaceDatabase.Loaded(t.rows[i], parse).data)
  {
    forall i | 0 <= i < |t.rows|
      ensures Get(g, t.rows[i].name) == Some(FaceDatabase.Loaded(t.rows[i], parse).data)
    {
      GetAt(g, i);
    }
  }

  /**
   * `addFace`: the face is upserted into the table and `put` into the map;
   * every other name keeps its entry in both.
   */
  function AddFace(repo: Repo, name: string, data: RecognitionData, show: Show): (r: Repo)
    requires Valid(repo)
    ensures Valid(r)
    ensures Get(r.known, name) == Some(data)
    ensures forall other | other != name :: Get(r.known, other) == Get(repo.known, other)
    ensures FaceDatabase.Lookup(r.table, name) == Some(EmbeddingToString(data.featureVector, show))
    ensures forall other | other != name :: FaceDatabase.Lookup(r.table, other) == FaceDatabase.Lookup(repo.table, other)
  {
    PutSemantics(repo.known, name, data);
    Repo(FaceDatabase.AddFace(repo.table, name, data.featureVector, show).0, Put(repo.known, name, data))
  }

  /**
   * `addIdentity`: nothing happens when the feature vector is null.
   * Otherwise the face is upserted into the table, the map is cleared and
   * then holds this one face only.
   */
  function AddIdentity(repo: Repo, name: string, data: RecognitionData, show: Show): (r: Repo)
    requires Valid(repo)
    ensures Valid(r)
    ensures data.featureVector.None? ==> r == repo
    ensures data.featureVector.Some? ==> r.known == [Entry(name, data)]
    ensures data.featureVector.Some? ==>
              && FaceDatabase.Lookup(r.table, name) == Some(EmbeddingToString(data.featureVector, show))
              && forall other | other != name :: FaceDatabase.Lookup(r.table, other) == FaceDatabase.Lookup(repo.table, other)
  {
    if data.featureVector.None? then repo
    else Repo(FaceDatabase.AddFace(repo.table, name, data.featureVector, show).0, [Entry(name, data)])
  }

  /**
   * After `addIdentity` with a vector, every other face is gone from the map
   * though its row stays in the table, where `addFace` would have kept it
   * in both.
   */
  lemma AddIdentityForgetsOthers(repo: Repo, name: string, data: RecognitionData, show: Show, other: string)
    requires Valid(repo) && data.featureVector.Some? && other != name
    ensures Get(AddIdentity(repo, name, data, show).known, other).None?
    ensures FaceDatabase.Lookup(AddIdentity(repo, name, data, show).table, other) == FaceDatabase.Lookup(repo.table, other)
    ensures Get(AddFace(repo, name, data, show).known, other) == Get(repo.known, other)
  {
    var g := AddIdentity(repo, name, data, show).known;
    assert g[0].name != other;
  }
}
