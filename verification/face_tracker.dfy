/**
 * `FaceDetectionTracker`: per frame, the detections with a box become debug
 * boxes in screen space, those at least `MIN_DETECTION_SIZE` in both
 * dimensions become tracked faces, and the tracked faces take the palette's
 * colours in order, at most one per colour.
 *
 * The screen transform (`Matrix.mapRect` with the matrix `draw` last built)
 * is a parameter. Drawing, text and the float scale in `draw` are not
 * modelled; its rotation test is.
 */
module FaceTracker {
  import opened Wrappers
  import opened Bits
  import opened MatrixOps
  import opened Recognition
  import ImageProcessor

  /** `MIN_DETECTION_SIZE` */
  const MinDetectionSize: real := 16.0

  /**
   * `COLOR_PALETTE` as ARGB words: BLUE, RED, GREEN, YELLOW, CYAN, MAGENTA,
   * WHITE, then #55FF55, #FFA500, #FF8888, #AAAAFF, #FFFFAA, #55AAAA,
   * #AA33AA and #0D0068, which `parseColor` makes opaque.
   */
  const ColorPalette: seq<Int32Bits> := [
    0xFF00_00FF, 0xFFFF_0000, 0xFF00_FF00, 0xFFFF_FF00, 0xFF00_FFFF,
    0xFFFF_00FF, 0xFFFF_FFFF, 0xFF55_FF55, 0xFFFF_A500, 0xFFFF_8888,
    0xFFAA_AAFF, 0xFFFF_FFAA, 0xFF55_AAAA, 0xFFAA_33AA, 0xFF0D_0068]

  /** Fifteen colours, all opaque and all different, so no two tracked faces share one. */
  lemma PaletteColours()
    ensures |ColorPalette| == 15
    ensures forall i | 0 <= i < |ColorPalette| :: ImageProcessor.Alpha(ColorPalette[i]) == 0xFF
    ensures forall i, j | 0 <= i < j < |ColorPalette| :: ColorPalette[i] != ColorPalette[j]
  {
  }

  /** `Matrix.mapRect` with the screen transform. */
  type ScreenMap = RectF -> RectF

  /** A `Pair<Float, RectF>` of `detectedObjects`: the (nullable) confidence and the box on screen. */
  datatype DebugBox = DebugBox(confidence: Option<real>, screenBox: RectF)

  /** A `TrackedFace`: the detector-space box, the unboxed confidence, a colour and the label. */
  datatype TrackedFace = TrackedFace(position: RectF, confidence: real, color: Int32Bits, labelText: Option<string>)

  /** Narrower or lower than `MIN_DETECTION_SIZE`: such a box is shown but not tracked. */
  predicate TooSmall(box: RectF) {
    box.Width() < MinDetectionSize || box.Height() < MinDetectionSize
  }

  // ---------------------------------------------------------------------
  // The detection loop

  /** The detections that have a box, in order. */
  function Boxed(results: seq<RecognitionData>): (b: seq<RecognitionData>)
    ensures |b| <= |results|
    ensures forall k | 0 <= k < |b| :: b[k].boundingBox.Some?
  {
    if results == [] then []
    else (if results[0].boundingBox.Some? then [results[0]] else []) + Boxed(results[1..])
  }

  /** The boxed detections are exactly the detections that have a box. */
  lemma {:induction false} BoxedExactly(results: seq<RecognitionData>)
    ensures forall k | 0 <= k < |Boxed(results)| :: Boxed(results)[k] in results
    ensures forall k | 0 <= k < |results| :: results[k].boundingBox.Some? ==> results[k] in Boxed(results)
  {
    if results != [] {
      BoxedExactly(results[1..]);
      var rest := Boxed(results[1..]);
      var head := if results[0].boundingBox.Some? then [results[0]] else [];
      assert Boxed(results) == head + rest;
      assert forall k | 0 <= k < |rest| :: rest[k] in results by {
        assert forall k | 0 <= k < |rest| :: rest[k] in results[1..];
      }
      forall k | 0 <= k < |results| && results[k].boundingBox.Some?
        ensures results[k] in Boxed(results)
      {
        if k > 0 {
          assert results[k] == results[1..][k - 1];
        }
      }
    }
  }

  /**
   * The debug list the loop builds: one screen box per detection that has a
   * box, undersized ones included, in input order.
   */
  function DebugBoxes(results: seq<RecognitionData>, toScreen: ScreenMap): (d: seq<DebugBox>)
    ensures |d| == |Boxed(results)|
  {
    if results == [] then []
    else
      var face := results[0];
      var rest := DebugBoxes(results[1..], toScreen);
      if face.boundingBox.None? then rest
      else [DebugBox(face.confidenceScore, toScreen(face.boundingBox.value))] + rest
  }

  /** The k-th debug box is the k-th boxed detection's confidence with its box mapped to the screen. */
  lemma {:induction false} DebugBoxesOfBoxed(results: seq<RecognitionData>, toScreen: ScreenMap)
    ensures forall k | 0 <= k < |DebugBoxes(results, toScreen)| ::
              DebugBoxes(results, toScreen)[k] ==
                DebugBox(Boxed(results)[k].confidenceScore, toScreen(Boxed(results)[k].boundingBox.value))
  {
    if results != [] {
      DebugBoxesOfBoxed(results[1..], toScreen);
      var face := results[0];
      if face.boundingBox.Some? {
        var d := DebugBoxes(results, toScreen);
        var b := Boxed(results);
        assert b == [face] + Boxed(results[1..]);
        forall k | 0 <= k < |d|
          ensures d[k] == DebugBox(b[k].confidenceScore, toScreen(b[k].boundingBox.value))
        {
          if k > 0 {
            assert d[k] == DebugBoxes(results[1..], toScreen)[k - 1];
            assert b[k] == Boxed(results[1..])[k - 1];
          }
        }
      }
    }
  }

  /** A `Pair` of `candidates`: the confidence it was listed with and the detection's box and label. */
  datatype Candidate = Candidate(confidence: Option<real>, position: RectF, labelText: Option<string>)

  /** The candidate a detection becomes: only one with a box at least 16 by 16 becomes one. */
  function CandidateOf(face: RecognitionData): Option<Candidate> {
    if face.boundingBox.None? || TooSmall(face.boundingBox.value) then None
    else Some(Candidate(face.confidenceScore, face.boundingBox.value, face.labelText))
  }

  /** The candidates the loop keeps: detections with a box at least 16 by 16, in input order. */
  function Candidates(results: seq<RecognitionData>): (c: seq<Candidate>)
    ensures |c| <= |Boxed(results)|
    ensures forall k | 0 <= k < |c| :: !TooSmall(c[k].position)
  {
    if results == [] then []
    else
      var rest := Candidates(results[1..]);
      match CandidateOf(results[0])
      case None => rest
      case Some(c) => [c] + rest
  }

  /** The candidates are exactly what the detections with a large enough box become. */
  lemma {:induction false} CandidatesExactly(results: seq<RecognitionData>)
    ensures forall k | 0 <= k < |Candidates(results)| ::
              exists i | 0 <= i < |results| :: CandidateOf(results[i]) == Some(Candidates(results)[k])
    ensures forall i | 0 <= i < |results| :: CandidateOf(results[i]).Some? ==> CandidateOf(results[i]).value in Candidates(results)
  {
    if results != [] {
      CandidatesExactly(results[1..]);
      var c := Candidates(results);
      var rest := Candidates(results[1..]);
      var head := if CandidateOf(results[0]).None? then [] else [CandidateOf(results[0]).value];
      assert c == head + rest;
      forall k | 0 <= k < |c|
        ensures exists i | 0 <= i < |results| :: CandidateOf(results[i]) == Some(c[k])
      {
        if k < |head| {
          assert CandidateOf(results[0]) == Some(c[k]);
        } else {
          var i :| 0 <= i < |results[1..]| && CandidateOf(results[1..][i]) == Some(rest[k - |head|]);
          assert CandidateOf(results[i + 1]) == Some(c[k]);
        }
      }
      forall i | 0 <= i < |results| && CandidateOf(results[i]).Some?
        ensures CandidateOf(results[i]).value in c
      {
        if i > 0 {
          assert results[i] == results[1..][i - 1];
        }
      }
    } else {
      assert Candidates(results) == [];
    }
  }

  /** The debug list is built input by input: the loop over a + b is the loop over a, then over b. */
  lemma {:induction false} DebugAppend(a: seq<RecognitionData>, b: seq<RecognitionData>, toScreen: ScreenMap)
    ensures DebugBoxes(a + b, toScreen) == DebugBoxes(a, toScreen) + DebugBoxes(b, toScreen)
  {
    if a == [] {
      assert a + b == b;
    } else {
      assert (a + b)[0] == a[0];
      assert (a + b)[1..] == a[1..] + b;
      DebugAppend(a[1..], b, toScreen);
    }
  }

  /** So are the candidates. */
  lemma {:induction false} CandidatesAppend(a: seq<RecognitionData>, b: seq<RecognitionData>)
    ensures Candidates(a + b) == Candidates(a) + Candidates(b)
  {
    if a == [] {
      assert a + b == b;
    } else {
      assert (a + b)[0] == a[0];
      assert (a + b)[1..] == a[1..] + b;
      CandidatesAppend(a[1..], b);
    }
  }

  /** One detection's share of the two lists. */
  lemma LoopSingle(face: RecognitionData, toScreen: ScreenMap)
    ensures DebugBoxes([face], toScreen) ==
              if face.boundingBox.None? then [] else [DebugBox(face.confidenceScore, toScreen(face.boundingBox.value))]
    ensures Candidates([face]) == if CandidateOf(face).None? then [] else [CandidateOf(face).value]
  {
    assert [face][1..] == [];
  }

  /** A detection without a box is in neither list: removing it changes nothing. */
  lemma NullBoxIgnored(before: seq<RecognitionData>, face: RecognitionData, after: seq<RecognitionData>, toScreen: ScreenMap)
    requires face.boundingBox.None?
    ensures DebugBoxes(before + [face] + after, toScreen) == DebugBoxes(before + after, toScreen)
    ensures Candidates(before + [face] + after) == Candidates(before + after)
  {
    DebugAppend(before + [face], after, toScreen);
    CandidatesAppend(before + [face], after);
    DebugAppend(before, [face], toScreen);
    CandidatesAppend(before, [face]);
    DebugAppend(before, after, toScreen);
    CandidatesAppend(before, after);
    LoopSingle(face, toScreen);
    assert DebugBoxes(before, toScreen) + [] == DebugBoxes(before, toScreen);
    assert Candidates(before) + [] == Candidates(before);
  }

  /** An undersized box is shown in the debug list, at its place, but never becomes a candidate. */
  lemma UndersizedOnlyDebugged(before: seq<RecognitionData>, face: RecognitionData, after: seq<RecognitionData>, toScreen: ScreenMap)
    requires face.boundingBox.Some? && TooSmall(face.boundingBox.value)
    ensures DebugBoxes(before + [face] + after, toScreen) ==
              DebugBoxes(before, toScreen) + [DebugBox(face.confidenceScore, toScreen(face.boundingBox.value))] + DebugBoxes(after, toScreen)
    ensures Candidates(before + [face] + after) == Candidates(before + after)
  {
    DebugAppend(before + [face], after, toScreen);
    CandidatesAppend(before + [face], after);
    DebugAppend(before, [face], toScreen);
    CandidatesAppend(before, [face]);
    DebugAppend(before, after, toScreen);
    CandidatesAppend(before, after);
    LoopSingle(face, toScreen);
    assert Candidates(before) + [] == Candidates(before);
  }

  /** The size test is strict: a box exactly 16 by 16 is tracked, one a little narrower or lower is not. */
  lemma SizeThreshold(left: real, top: real, w: real, h: real)
    requires w >= 0.0 && h >= 0.0
    ensures TooSmall(RectF(left, top, left + w, top + h)) <==> w < 16.0 || h < 16.0
    ensures !TooSmall(RectF(left, top, left + 16.0, top + 16.0))
  {
  }

  // ---------------------------------------------------------------------
  // Track assignment

  /** The track the loop makes of candidate c in slot i: its detector-space box, confidence and label, colour i. */
  function TrackOf(c: Candidate, i: nat): TrackedFace
    requires c.confidence.Some? && i < |ColorPalette|
  {
    TrackedFace(c.position, c.confidence.value, ColorPalette[i], c.labelText)
  }

  /** The smaller of two counts. */
  function Min(a: nat, b: nat): nat {
    if a < b then a else b
  }

  /**
   * The track loop from colour slot `slot` on: each candidate in turn gets
   * the palette colour of its slot, and the loop stops once the palette is
   * used up. Unboxing a null confidence throws; the tracks added before it
   * stay, and the flag reports the exception.
   */
  function AssignTracks(candidates: seq<Candidate>, slot: nat): (r: (seq<TrackedFace>, bool))
    requires slot < |ColorPalette|
    ensures |r.0| <= |candidates| && slot + |r.0| <= |ColorPalette|
    ensures forall k | 0 <= k < |r.0| :: candidates[k].confidence.Some? && r.0[k] == TrackOf(candidates[k], slot + k)
    ensures r.1 <==> |r.0| < Min(|candidates|, |ColorPalette| - slot)
    ensures r.1 ==> candidates[|r.0|].confidence.None?
    decreases |candidates|
  {
    if candidates == [] then ([], false)
    else
      var c := candidates[0];
      if c.confidence.None? then ([], true)
      else if slot + 1 >= |ColorPalette| then ([TrackOf(c, slot)], false)
      else
        var rest := AssignTracks(candidates[1..], slot + 1);
        ([TrackOf(c, slot)] + rest.0, rest.1)
  }

  // ---------------------------------------------------------------------
  // The tracker

  /** The tracker's per-frame state: the debug list, the tracked faces and the frame orientation. */
  datatype Tracker = Tracker(debug: seq<DebugBox>, tracks: seq<TrackedFace>, orientation: Int32)

  /**
   * `processDetections`: the debug list and the tracks are cleared and
   * rebuilt from this frame's detections alone. The flag is true when
   * unboxing a null confidence threw part-way through the track loop.
   */
  function ProcessDetections(t: Tracker, results: seq<RecognitionData>, toScreen: ScreenMap): (r: (Tracker, bool))
    ensures r.0.orientation == t.orientation
    ensures r.0.debug == DebugBoxes(results, toScreen)
    ensures |r.0.tracks| <= Min(|Candidates(results)|, |ColorPalette|)
    ensures forall k | 0 <= k < |r.0.tracks| ::
              Candidates(results)[k].confidence.Some? && r.0.tracks[k] == TrackOf(Candidates(results)[k], k)
    ensures !r.1 <==> |r.0.tracks| == Min(|Candidates(results)|, |ColorPalette|)
  {
    var debug := DebugBoxes(results, toScreen);
    var candidates := Candidates(results);
    if candidates == [] then (Tracker(debug, [], t.orientation), false)
    else
      var (tracks, thrown) := AssignTracks(candidates, 0);
      (Tracker(debug, tracks, t.orientation), thrown)
  }

  /** With every candidate scored, the tracks are the first min(n, 15) candidates, each in its own colour. */
  lemma TracksWhenScored(t: Tracker, results: seq<RecognitionData>, toScreen: ScreenMap)
    requires forall k | 0 <= k < |Candidates(results)| :: Candidates(results)[k].confidence.Some?
    ensures var r := ProcessDetections(t, results, toScreen);
            && !r.1
            && |r.0.tracks| == Min(|Candidates(results)|, 15)
            && forall i, j | 0 <= i < j < |r.0.tracks| :: r.0.tracks[i].color != r.0.tracks[j].color
  {
    var r := ProcessDetections(t, results, toScreen);
    PaletteColours();
    forall i, j | 0 <= i < j < |r.0.tracks| ensures r.0.tracks[i].color != r.0.tracks[j].color {
      assert r.0.tracks[i].color == ColorPalette[i];
      assert r.0.tracks[j].color == ColorPalette[j];
    }
  }

  /** Nothing of the previous frame survives: two trackers given the same detections end in the same lists. */
  lemma NoCarryOver(t1: Tracker, t2: Tracker, results: seq<RecognitionData>, toScreen: ScreenMap)
    ensures ProcessDetections(t1, results, toScreen).0.debug == ProcessDetections(t2, results, toScreen).0.debug
    ensures ProcessDetections(t1, results, toScreen).0.tracks == ProcessDetections(t2, results, toScreen).0.tracks
    ensures ProcessDetections(t1, results, toScreen).1 == ProcessDetections(t2, results, toScreen).1
  {
  }

  // ---------------------------------------------------------------------
  // The rotation test in `draw`

  /** `imageOrientation % 180 == 90`, with Java's remainder. */
  predicate IsRotated(orientation: Int32) {
    JavaRem(orientation, 180) == 90
  }

  /**
   * For angles from 0 up to 2^31 - 90 the tracker's test and the recipe's
   * transposition test agree; above that `Math.abs(r) + 90` wraps around.
   */
  lemma RotatedAgreesWithRecipe(orientation: Int32)
    requires 0 <= orientation < 0x8000_0000 - 90
    ensures IsRotated(orientation) <==> ImageProcessor.IsTransposed(orientation)
  {
    ImageProcessor.TransposedOnOddQuarterTurns(orientation);
  }

  /** For -90 they differ: Java's -90 % 180 is -90, so the tracker does not swap, while the recipe does. */
  lemma NegativeQuarterTurnDisagrees()
    ensures !IsRotated(-90)
    ensures ImageProcessor.IsTransposed(-90)
  {
    ImageProcessor.TransposedOnOddQuarterTurns(-90);
  }
}
