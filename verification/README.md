# Real-time face recognizer: a Dafny model of its core

The Android app detects faces in camera frames and recognises enrolled people. This project models the logic at the centre of it and proves properties of that model:

- **Frame utilities** (`ImageProcessor`, `ImageTransformer`):
  - the NV21 buffer size;
  - the fixed-point YUV to ARGB pixel conversion, which inverts the 8-bit YCbCr encoding of ITU-R BT.601, section 2.5;
  - the NV21 and three-plane frame converters;
  - the recipe of the detector-to-screen `Matrix`, recorded as the sequence of `post*` operations applied to an identity matrix.
- **Face store** (`FaceDatabase`):
  - the comma-terminated text form of an embedding and its parser, with Java `String.split` semantics;
  - the `faces` table with its UNIQUE name column, under insert-or-replace, update, delete and full scan.
- **Recogniser** (`RealtimeRecognitionRepo`):
  - the in-memory gallery;
  - the nearest-match search;
  - the shaping of a recognition result;
  - the packing of a quantized model input;
  - enrolment through `addFace` and `addIdentity`.
- **Tracker** (`FaceDetectionTracker`):
  - per frame, the debug list of screen boxes and the size filter;
  - the assignment of palette colours to tracked faces;
  - the rotation test in `draw`.

## Representation choices

- Java `float`s are Dafny `real`s.
- A nullable reference is an `Option`, and a thrown exception is a `Failure`.
- A Java `int` pixel is its unsigned 32-bit pattern (`Int32Bits`). The bit operations `&`, `|`, `<<` and `>>` are defined arithmetically on non-negative integers (module `Bits`).
- A `HashMap` is a sequence of entries with unique keys. The sequence order stands for the iteration order, which decides ties in the nearest-match search.
- The SQLite table is a sequence of rows in storage order, plus the next auto-increment id.
- `Float.toString` and `Float.parseFloat` are parameters (`show`, `parse`). The round trip is proved for any pair that reads back what it prints.
- The screen transform `Matrix.mapRect` is a parameter (`ScreenMap`).
- The model's inference output is a parameter of `ProcessImage`.

## Modules

| file | module | models |
|---|---|---|
| `wrappers.dfy` | `Wrappers` | `Option` and `Result` |
| `bits.dfy` | `Bits` | Java bit operations, `Math.abs`, `%` and 32-bit wrap-around on integers |
| `matrix_ops.dfy` | `MatrixOps` | the vocabulary of a `Matrix` recipe |
| `recognition.dfy` | `Recognition` | `RecognitionData` and `RectF` |
| `frame_scan.dfy` | `FrameScan` | the two row-major frame scans, generic in the pixel converter |
| `image_processor.dfy` | `ImageProcessor` | `ImageProcessor` |
| `image_transformer.dfy` | `ImageTransformer` | `ImageTransformer`, each operation proved equal to its `ImageProcessor` twin |
| `embedding_codec.dfy` | `EmbeddingCodec` | `embeddingToString` and `stringToEmbedding` |
| `known_faces.dfy` | `KnownFaces` | the `HashMap<String, RecognitionData>` of known faces |
| `face_database.dfy` | `FaceDatabase` | the `faces` table operations |
| `recognition_repo.dfy` | `RecognitionRepo` | `RealtimeRecognitionRepo` |
| `face_tracker.dfy` | `FaceTracker` | `FaceDetectionTracker` |

## Behaviour of the code worth noting

- **Reading the table.** `getAllFaces` does not skip a malformed stored row: the parse exception escapes. `FaceDatabase.GetAllFaces` fails exactly when some row does not decode.
- **Vector length in matching.**
  - The search compares only the query's length. A longer stored row is silently accepted (`RecognitionRepo.DistanceIgnoresTail`).
  - A shorter stored row, a null vector or a zero-row vector throws, and `RecognitionRepo.FindClosestMatch` reports the first such entry.
- **Validating new faces.** Nothing rejects a null or zero-length vector before a write. `FaceDatabase.addFace` stores `""` for it and reports success. `RecognitionRepo.addFace` does not check it at all.
- **Updating a face.** `updateFace` is not an upsert: it changes nothing and returns false when the name is absent (`FaceDatabase.UpdateFace`).
- **Enrolling through `addIdentity`.** It clears the whole in-memory gallery before inserting the new face. Other faces stay in the table (`RecognitionRepo.AddIdentityForgetsOthers`).
- **Tracked boxes.** A track keeps the detector-space box, which is mapped to the screen only when drawing. Unboxing a null confidence for a track throws part-way through the loop; `FaceTracker.AssignTracks` reports this with its flag.
- **Rotation tests.** The tracker's rotation test and the recipe's transposition test agree for orientations r with 0 <= r < 2^31 - 90. Above that, `Math.abs(r) + 90` wraps around to a negative `int`. For -90, Java's `%` makes the tracker skip the swap while the recipe transposes (`FaceTracker.NegativeQuarterTurnDisagrees`).

## Model

All source paths are under `app/src/main/java/eu/example/realtimefr/`.

| member | source | states |
|---|---|---|
| ImageProcessor.ArgbChannels | app/src/main/java/eu/example/realtimefr/utils/ImageProcessor.java:100 | a packed ARGB word gives back its alpha, red, green and blue bytes, so the packing loses nothing |
| ImageProcessor.PackChannels | app/src/main/java/eu/example/realtimefr/utils/ImageProcessor.java:100 | the OR of `0xff000000` and the three shifted, masked channels is the opaque pixel whose channels are the top 8 of each 18-bit value |
| ImageProcessor.DisjointFields | app/src/main/java/eu/example/realtimefr/utils/ImageProcessor.java:100 | OR-ing the alpha byte with three non-overlapping channel fields is their sum |
| ImageProcessor.ConvertPixel | app/src/main/java/eu/example/realtimefr/utils/ImageProcessor.java:86-101 | the converted pixel is opaque; each channel is its BT.601 fixed-point level, clamped to 0..2^18-1, divided by 1024 |
| ImageProcessor.PixelChannels | app/src/main/java/eu/example/realtimefr/utils/ImageProcessor.java:96-100 | every converted pixel has alpha 0xFF, and red, green and blue each lie in 0..255 and equal the clamped level over 1024 |
| ImageProcessor.NeutralChromaIsGrey | app/src/main/java/eu/example/realtimefr/utils/ImageProcessor.java:87-94 | with u = v = 128, the red, green and blue channels are equal |
| ImageProcessor.DarkLumaIsBlack | app/src/main/java/eu/example/realtimefr/utils/ImageProcessor.java:87-100 | with neutral chroma, any luma at or below the black level 16 gives opaque black 0xFF000000 |
| ImageProcessor.YuvSizeOfEvenFrame | app/src/main/java/eu/example/realtimefr/utils/ImageProcessor.java:14-18 | for even width and height, the NV21 size is exactly 3·w·h/2 |
| ImageProcessor.Nv21SpanWithinYuvSize | app/src/main/java/eu/example/realtimefr/utils/ImageProcessor.java:14-18 | a buffer of `computeYUVSize(w, h)` bytes covers every byte the NV21 converter reads |
| ImageProcessor.ConvertNV21 | app/src/main/java/eu/example/realtimefr/utils/ImageProcessor.java:43-58 | it stores at `j·w + i` the conversion of luma byte `j·w + i` with the V/U pair at `w·h + (j/2)·w + 2·(i/2)`, for every pixel, so each 2x2 block shares one pair; it leaves everything past `w·h` untouched |
| ImageProcessor.TransformYUV420ToRGB | app/src/main/java/eu/example/realtimefr/utils/ImageProcessor.java:60-84 | it stores at `row·w + col` the conversion of the luma at `lumStride·row + col` and of U and V at `chromaStride·(row/2) + (col/2)·pixelStride`, for every pixel; it leaves the rest of the array untouched |
| ImageProcessor.CreateTransformationMatrix | app/src/main/java/eu/example/realtimefr/utils/ImageProcessor.java:103-138 | rotation 0 gives only a scale step, if any; otherwise the recipe is translate(-sw/2, -sh/2), rotate(r), an optional scale, then translate(dw/2, dh/2) |
| ImageProcessor.RecipeScale | app/src/main/java/eu/example/realtimefr/utils/ImageProcessor.java:117-131 | a scale step is present exactly when the source size, swapped on quarter turns, differs from the destination; its ratios use the swapped size; it is uniform (max of the two) exactly when the aspect ratio is kept |
| ImageProcessor.IdentityRecipe | app/src/main/java/eu/example/realtimefr/utils/ImageProcessor.java:112-135 | rotation 0 with equal source and destination sizes gives the identity: no operation at all |
| ImageProcessor.TransposedOnOddQuarterTurns | app/src/main/java/eu/example/realtimefr/utils/ImageProcessor.java:117 | away from `int` overflow, `(abs(r) + 90) % 180 == 0` holds exactly when `abs(r) % 180 == 90` |
| FrameScan.Nv21ChromaInBounds | app/src/main/java/eu/example/realtimefr/utils/ImageProcessor.java:46-53 | the V and U bytes read for any pixel lie below the span of the frame's NV21 reads |
| FrameScan.Nv21Column | app/src/main/java/eu/example/realtimefr/utils/ImageProcessor.java:50-55 | an even column reads the next V/U pair and advances the chroma cursor by 2; an odd column reuses the pair; either way the stored pixel uses its block's pair |
| FrameScan.ScanNv21Row | app/src/main/java/eu/example/realtimefr/utils/ImageProcessor.java:45-57 | one row pass writes the row's pixels in order after the earlier rows, and changes nothing after the row |
| FrameScan.ScanNv21 | app/src/main/java/eu/example/realtimefr/utils/ImageProcessor.java:43-58 | the NV21 scan, for any pixel converter, stores each pixel's conversion at its row-major index and nothing past the frame |
| FrameScan.ScanPlanarRow | app/src/main/java/eu/example/realtimefr/utils/ImageProcessor.java:72-82 | one row of the planar scan writes the row's pixels in order from its start, and changes nothing after them |
| FrameScan.ScanPlanar | app/src/main/java/eu/example/realtimefr/utils/ImageProcessor.java:60-84 | the planar scan, for any pixel converter, stores each pixel's conversion at its row-major index and nothing past the frame |
| ImageTransformer.ComputeYUVSize | app/src/main/java/eu/example/realtimefr/utils/ImageTransformer.java:14-18 | this class's NV21 size equals `ImageProcessor`'s for every width and height |
| ImageTransformer.ClampLevel | app/src/main/java/eu/example/realtimefr/utils/ImageTransformer.java:65-67 | the clamped level lies in 0..262143 and is `ImageProcessor`'s clamp of the same value |
| ImageTransformer.YuvToRgb | app/src/main/java/eu/example/realtimefr/utils/ImageTransformer.java:55-70 | `yuvToRgb` gives the opaque pixel whose channels are the clamped BT.601 levels over 1024 |
| ImageTransformer.SamePixel | app/src/main/java/eu/example/realtimefr/utils/ImageTransformer.java:55-70 | `yuvToRgb` and `ImageProcessor.convertYUVToRGB(int, int, int)` agree on every byte triple |
| ImageTransformer.YuvToRgbChannels | app/src/main/java/eu/example/realtimefr/utils/ImageTransformer.java:65-69 | every pixel of `yuvToRgb` has alpha 0xFF, and channels in 0..255 equal to the clamped level over 1024 |
| ImageTransformer.SameNv21Pixels | app/src/main/java/eu/example/realtimefr/utils/ImageTransformer.java:39-53 | at every position, the two NV21 converters compute the same pixel |
| ImageTransformer.ConvertYUVToRGB | app/src/main/java/eu/example/realtimefr/utils/ImageTransformer.java:39-53 | this class's NV21 converter stores, at every index, the pixel `ImageProcessor`'s converter stores, and leaves the rest of the array untouched |
| ImageTransformer.GenerateTransformationMatrix | app/src/main/java/eu/example/realtimefr/utils/ImageTransformer.java:72-100 | it builds exactly the recipe of `createTransformationMatrix` for every input |
| EmbeddingCodec.EmbeddingToString | app/src/main/java/eu/example/realtimefr/data/FaceDatabase.java:47-54 | a null or zero-row embedding encodes as "" |
| EmbeddingCodec.JoinComponentsCommas | app/src/main/java/eu/example/realtimefr/data/FaceDatabase.java:49-53 | with comma-free component texts, the encoding has one comma per component, and ends in a comma exactly when the row is non-empty |
| EmbeddingCodec.SplitAllJoins | app/src/main/java/eu/example/realtimefr/data/FaceDatabase.java:60 | splitting at commas yields comma-free pieces that rejoin, with commas, to the original text |
| EmbeddingCodec.DropTrailingEmpty | app/src/main/java/eu/example/realtimefr/data/FaceDatabase.java:60 | `split` keeps a prefix of the pieces that ends in a non-empty piece; only empty pieces are dropped, and only at the end |
| EmbeddingCodec.ParseTokens | app/src/main/java/eu/example/realtimefr/data/FaceDatabase.java:63-65 | parsing succeeds exactly when every token parses, giving one value per token in order; otherwise it names a token that does not parse |
| EmbeddingCodec.StringToEmbedding | app/src/main/java/eu/example/realtimefr/data/FaceDatabase.java:57-67 | null or "" decodes to one row of length 0; other text decodes exactly when every token of `split(",")` parses, to one row holding the parsed tokens in order |
| EmbeddingCodec.RoundTrip | app/src/main/java/eu/example/realtimefr/data/FaceDatabase.java:47-67 | decoding the encoding of an embedding gives back its row 0 as the only row, whenever each printed component is non-empty, comma-free and parses back to itself |
| EmbeddingCodec.InteriorEmptyTokenFails | app/src/main/java/eu/example/realtimefr/data/FaceDatabase.java:60-64 | text with ",," followed somewhere by a character other than a comma fails to decode, whatever comes before: `split` drops only trailing empty tokens, and the empty token between the commas does not parse |
| KnownFaces.Put | app/src/main/java/eu/example/realtimefr/data/repository/RealtimeRecognitionRepo.java:43 | `put` replaces the value of an existing key where it stands, or appends a new key, and leaves every other entry as it was |
| KnownFaces.PutSemantics | app/src/main/java/eu/example/realtimefr/data/repository/RealtimeRecognitionRepo.java:43 | after `put`, the key maps to the new value, every other key keeps its value, and keys stay unique |
| KnownFaces.PutAppends | app/src/main/java/eu/example/realtimefr/data/FaceDatabase.java:136 | putting a key the map does not hold adds it after the existing entries |
| FaceDatabase.AddFace | app/src/main/java/eu/example/realtimefr/data/FaceDatabase.java:70-84 | the insert with REPLACE on the UNIQUE name reports success; afterwards the name holds the new encoding, every other name holds what it held before, and the table constraints are kept |
| FaceDatabase.UpdateFace | app/src/main/java/eu/example/realtimefr/data/FaceDatabase.java:99-109 | it returns true exactly when a row had the name; only that row's embedding changes; an absent name stays absent; names, ids and constraints are kept |
| FaceDatabase.RemoveFace | app/src/main/java/eu/example/realtimefr/data/FaceDatabase.java:112-119 | it returns true exactly when a row had the name; afterwards no row has it, and the other rows remain in order with the constraints kept |
| FaceDatabase.GetAllFaces | app/src/main/java/eu/example/realtimefr/data/FaceDatabase.java:122-143 | loading succeeds exactly when every row's text decodes; it then gives one entry per row, in row order, with unique names |
| FaceDatabase.LoadRowsSucceeds | app/src/main/java/eu/example/realtimefr/data/FaceDatabase.java:129-137 | the scan loop fails exactly when some remaining row does not decode |
| FaceDatabase.LoadRowsValue | app/src/main/java/eu/example/realtimefr/data/FaceDatabase.java:129-137 | when every row decodes, the loop appends one `RecognitionData(name, embedding)` entry per row, in row order, to the map built so far |
| FaceDatabase.LoadedAllUnique | app/src/main/java/eu/example/realtimefr/data/FaceDatabase.java:127-136 | rows with distinct names load into a map with distinct keys |
| FaceDatabase.StoredFaceReadsBack | app/src/main/java/eu/example/realtimefr/data/FaceDatabase.java:79-136 | after `addFace` of an embedding, `getAllFaces` succeeds and maps the name to that embedding's row 0, given printing and parsing that round-trip and a table whose rows all decode |
| RecognitionRepo.DistanceIgnoresTail | app/src/main/java/eu/example/realtimefr/data/repository/RealtimeRecognitionRepo.java:92 | stored components beyond the query's length do not affect the distance |
| RecognitionRepo.DistanceToSelf | app/src/main/java/eu/example/realtimefr/data/repository/RealtimeRecognitionRepo.java:91-95 | a stored row that starts with the query is at distance 0 |
| RecognitionRepo.MismatchIsFar | app/src/main/java/eu/example/realtimefr/data/repository/RealtimeRecognitionRepo.java:91-95 | a stored row whose prefix differs from the query in any component is at a positive distance |
| RecognitionRepo.ZeroDistanceIsSelf | app/src/main/java/eu/example/realtimefr/data/repository/RealtimeRecognitionRepo.java:91-95 | distance 0 only when the stored row starts with the query; with DistanceToSelf, exactly then |
| RecognitionRepo.DistanceSymmetric | app/src/main/java/eu/example/realtimefr/data/repository/RealtimeRecognitionRepo.java:91-95 | the distance is the same with the query and the stored prefix swapped |
| RecognitionRepo.Distance | app/src/main/java/eu/example/realtimefr/data/repository/RealtimeRecognitionRepo.java:91-95 | the inner loop computes the sum of squared differences over the query's indices |
| RecognitionRepo.FirstClosestUnique | app/src/main/java/eu/example/realtimefr/data/repository/RealtimeRecognitionRepo.java:100-103 | at most one entry is at least distance with no earlier entry as close, so the strict comparison determines the winner |
| RecognitionRepo.FindClosestMatch | app/src/main/java/eu/example/realtimefr/data/repository/RealtimeRecognitionRepo.java:81-113 | it throws exactly when some entry cannot be compared, naming the first such entry; otherwise there is no match exactly for an empty gallery, and a match names the first closest entry with its distance, which is at most every entry's distance |
| RecognitionRepo.MaskedChannels | app/src/main/java/eu/example/realtimefr/data/repository/RealtimeRecognitionRepo.java:141-143 | `(p >> 16) & 0xFF`, `(p >> 8) & 0xFF` and `p & 0xFF` are the pixel's red, green and blue channels |
| RecognitionRepo.PackedSlices | app/src/main/java/eu/example/realtimefr/data/repository/RealtimeRecognitionRepo.java:137-143 | in the packed bytes, pixel k's three channels are bytes 3k to 3k+2 |
| RecognitionRepo.QuantizeRow | app/src/main/java/eu/example/realtimefr/data/repository/RealtimeRecognitionRepo.java:138-149 | the inner loop appends the row's pixels' bytes, in column order, to the bytes of the earlier rows |
| RecognitionRepo.QuantizeInput | app/src/main/java/eu/example/realtimefr/data/repository/RealtimeRecognitionRepo.java:137-150 | the quantized fill writes exactly the buffer capacity `initialize` allocates, 3·size² bytes, with pixel k's red, green and blue at bytes 3k..3k+2 in row-major order |
| RecognitionRepo.ProcessImage | app/src/main/java/eu/example/realtimefr/data/repository/RealtimeRecognitionRepo.java:158-174 | the result has id "0" and an empty box; an empty gallery gives "Unknown" with `Float.MAX_VALUE`, otherwise the first closest entry's name and distance; the embedding is attached exactly when `storeEmbedding`; the search's exception propagates |
| RecognitionRepo.Open | app/src/main/java/eu/example/realtimefr/data/repository/RealtimeRecognitionRepo.java:46-49 | construction succeeds exactly when every stored row decodes, and then the gallery is exactly the stored faces, one per row in row order, each under its name |
| RecognitionRepo.AddFace | app/src/main/java/eu/example/realtimefr/data/repository/RealtimeRecognitionRepo.java:41-44 | the face is upserted into the table and the gallery; every other name keeps its entry in both |
| RecognitionRepo.AddIdentity | app/src/main/java/eu/example/realtimefr/data/repository/RealtimeRecognitionRepo.java:116-130 | a null vector changes nothing; otherwise the face is upserted into the table, other rows are unchanged, and the gallery holds exactly this one face |
| RecognitionRepo.AddIdentityForgetsOthers | app/src/main/java/eu/example/realtimefr/data/repository/RealtimeRecognitionRepo.java:124-127 | after `addIdentity`, every other name is gone from the gallery but keeps its table row, whereas `addFace` keeps it in both |
| FaceTracker.PaletteColours | app/src/main/java/eu/example/realtimefr/ui/components/FaceDetectionTracker.java:26-33 | the palette has 15 colours, all opaque and pairwise distinct |
| FaceTracker.Boxed | app/src/main/java/eu/example/realtimefr/ui/components/FaceDetectionTracker.java:124-126 | the loop goes on only with detections that have a box, never more of them than there are detections |
| FaceTracker.BoxedExactly | app/src/main/java/eu/example/realtimefr/ui/components/FaceDetectionTracker.java:124-126 | the detections the loop goes on with are exactly those that have a box: every kept one is a detection, and every detection with a box is kept |
| FaceTracker.DebugBoxes | app/src/main/java/eu/example/realtimefr/ui/components/FaceDetectionTracker.java:120-131 | the debug list has one entry per detection with a box, undersized ones included |
| FaceTracker.DebugBoxesOfBoxed | app/src/main/java/eu/example/realtimefr/ui/components/FaceDetectionTracker.java:127-131 | the k-th debug entry is the k-th boxed detection's confidence, paired with that box mapped to the screen |
| FaceTracker.Candidates | app/src/main/java/eu/example/realtimefr/ui/components/FaceDetectionTracker.java:133-137 | every candidate's box is at least 16 by 16, and there are no more candidates than boxed detections |
| FaceTracker.CandidatesExactly | app/src/main/java/eu/example/realtimefr/ui/components/FaceDetectionTracker.java:133-137 | the candidates are exactly the detections with a box at least 16 by 16, each with its confidence, box and label: every candidate comes from such a detection, and every such detection is a candidate |
| FaceTracker.DebugAppend | app/src/main/java/eu/example/realtimefr/ui/components/FaceDetectionTracker.java:123-131 | the debug list over a + b is the list over a followed by the list over b, so the input order is kept |
| FaceTracker.CandidatesAppend | app/src/main/java/eu/example/realtimefr/ui/components/FaceDetectionTracker.java:123-138 | the candidates over a + b are those over a followed by those over b, so the input order is kept |
| FaceTracker.NullBoxIgnored | app/src/main/java/eu/example/realtimefr/ui/components/FaceDetectionTracker.java:124-126 | a detection without a box contributes to neither list |
| FaceTracker.UndersizedOnlyDebugged | app/src/main/java/eu/example/realtimefr/ui/components/FaceDetectionTracker.java:131-135 | an undersized box appears in the debug list at its place but is never a candidate |
| FaceTracker.SizeThreshold | app/src/main/java/eu/example/realtimefr/ui/components/FaceDetectionTracker.java:133 | a box is too small exactly when its width or height is below 16; a box of exactly 16 by 16 is tracked |
| FaceTracker.AssignTracks | app/src/main/java/eu/example/realtimefr/ui/components/FaceDetectionTracker.java:145-156 | track k is candidate k, with its box, confidence and label and palette colour slot + k; the loop stops when the palette runs out; it throws exactly when it stops early, at a candidate with a null confidence |
| FaceTracker.ProcessDetections | app/src/main/java/eu/example/realtimefr/ui/components/FaceDetectionTracker.java:118-157 | the debug list is rebuilt from the frame; track k is candidate k in colour k, in input order, at most 15; it completes without throwing exactly when the count is min(candidates, 15) |
| FaceTracker.TracksWhenScored | app/src/main/java/eu/example/realtimefr/ui/components/FaceDetectionTracker.java:145-156 | when every candidate has a confidence, the loop does not throw, min(candidates, 15) faces are tracked, and no two share a colour |
| FaceTracker.NoCarryOver | app/src/main/java/eu/example/realtimefr/ui/components/FaceDetectionTracker.java:120-143 | both lists and the outcome depend only on the frame's detections, never on the previous frame |
| FaceTracker.RotatedAgreesWithRecipe | app/src/main/java/eu/example/realtimefr/ui/components/FaceDetectionTracker.java:92 | for orientations r with 0 <= r < 2^31 - 90, the tracker's `% 180 == 90` test agrees with the recipe's transposition test |
| FaceTracker.NegativeQuarterTurnDisagrees | app/src/main/java/eu/example/realtimefr/ui/components/FaceDetectionTracker.java:92 | for -90 the two tests disagree: the tracker sees no rotation, but the recipe transposes |

## Left out

- `storeBitmap`, in both utility classes: file-system I/O.
- `loadModel`, the TFLite `Interpreter` and inference: foreign code whose output row is a parameter of `RecognitionRepo.ProcessImage`.
- The float normalisation path of `processImage` (`(x - 128) / 128` written with `putFloat`): float arithmetic and byte order.
- `initialize`: only its buffer capacity (`RecognitionRepo.BufferCapacity`) is modelled.
- `bitmap.getPixels`: the pixel array is a parameter of `RecognitionRepo.QuantizeInput`.
- `getFace`, `getFaceCount`, cursors, and opening and closing the database: storage-engine plumbing. `onCreate` appears only as the empty table; `onUpgrade` is not modelled.
- `Log` calls, `synchronized`, and all concurrency.
- `configureFrame`, `renderDebug`, `draw` apart from its rotation test, and `updateTrackedObjects` (which only forwards): drawing and float scaling.
- `TextStyler` and `RecognitionData.toString`: text layout and debug formatting.
- Array index exceptions from buffers that are too short: the converters' preconditions ask for long enough `yuvData` and `rgbOutput` arrays instead.
- RecognitionRepo.FindClosestMatch: the reported distance is the squared distance. The source reports `(float) Math.sqrt` of it. The square root is strictly increasing on non-negative reals, so the chosen entry is the same, but float rounding could make two distinct squared distances tie after the root; that is not modelled.
- RecognitionRepo.ProcessImage: reports the squared distance as the confidence score, for the same reason.
- RecognitionRepo.SquaredDistance: sums over the reals, without float rounding.
- ImageProcessor.ComputeYUVSize: computed on unbounded naturals, without the 32-bit overflow of very large frames.
- ImageProcessor.CreateTransformationMatrix: records the scale ratios unevaluated and the translations as exact halves, not as float arithmetic; the platform's matrix arithmetic is not modelled.
- FaceDatabase.AddFace: the insert never fails in the model, so the returned flag is always true.
- FaceTracker.ProcessDetections: `Matrix.mapRect` with the tracker's matrix is an arbitrary function parameter.
- EmbeddingCodec.StringToEmbedding: `Float.parseFloat` is a parameter, so its exact grammar (whitespace trimming, hexadecimal floats, "NaN") is not modelled.
- KnownFaces.Put: a `HashMap`'s iteration order is modelled as insertion order. The search's tie-breaking is proved for whatever order the gallery has.
