# Video face identification: a Dafny model of the recognition core

The script `mobilefacenet_experiment/test_video.py` reads a video and runs recognition on every
eighth frame. On such a frame it asks a face detector for boxes and keeps the tallest one. It cuts
a square region around that face and turns it into an embedding. It then names the face after the
most similar entry of a gallery of enrolled embeddings, or "unknown" when no entry is similar
enough. Before the loop starts, the gallery is extended with one entry per usable sample photo of
the user.

The neural networks (detector and embedding network), the video source and the windows are
external. Here they become inputs:

- the detector's answer for an image is a `Detection`: it raised, or it returned a list of integer
  boxes;
- the embedding the network computes for a photo or a frame is a field of that photo or frame;
- the similarity of two embeddings is a function parameter `sim`;
- a run of the video is a finite sequence of reads, each a frame or nothing.

Modules, one per component, one file each:

- `Prelude` (`prelude.dfy`): `Option`, and `TruncDiv`, which is Python's `int(a / d)`. Python
  truncates toward zero, while Dafny's `/` is Euclidean.
- `Normalizer` (`normalizer.dfy`): `crop_face`. `Tallest` and the method `CropFace` model the
  scan for the first tallest box. `Square` is the straight-line geometry of the square crop.
  `Cut` is the part of the frame numpy selects with those bounds. `Crop` gives the four possible
  outcomes: no box with positive height (`NoBox`), a face under 60 pixels (`TooSmall`), an empty
  slice that `cv2.resize` rejects (`EmptyCrop`), or the region cut out with the selected box
  (`Cropped`).
- `Gallery` (`gallery.dfy`): the feature dictionary as a class. `keys` holds the insertion order
  and `features` the contents, and `Put` is `d[k] = v`. It also holds enrollment
  (`get_your_faceImg_feature`): the method `Enroll`, the keys `name + '_' + str(idx)`, and the
  specification functions `Written`, `Appended` and `Collected` with lemmas about them.
- `Matcher` (`matcher.dfy`): `get_predict_name`. The method `PredictName` scans the gallery with
  the sentinel -10 and a strict `>`. `Predict` is its specification, and `Leader` picks the first
  highest score. Lemmas cover the maximum, first-seen ties and the 0.4 threshold.
- `StreamController` (`stream.dfy`): the `__main__` loop. The class `FrameCounter` holds
  `idx_frame`. `Process` is the loop body for a processed read, and the method `ProcessRead`
  runs it. The method `Run` goes through a finite sequence of reads, returning what is shown,
  the reads that were processed, and how the run ended.

The model follows the code of the script, including the places where it raises:

- **Too-small face.** `crop_face` returns the image alone (line 75), and both callers unpack two
  values (lines 121 and 164). A three-channel image of height other than 2 makes that unpacking
  raise. With height 2 the unpacking succeeds, but the embedding step fails on the resulting
  two-dimensional row. Neither call is inside a `try`, so the exception ends the script. The
  model therefore treats `TooSmall` as fatal for the caller: `Enroll` returns `Aborted(idx)` and
  `Run` returns `Crashed(read)`.
- **No box of positive height.** When boxes were detected but none has positive height, `box`
  stays `None` and line 71 raises. This is `NoBox`, fatal in the same way.
- **Empty slice.** Take a square exactly as wide as the frame whose centred left edge is not
  negative. Line 90 then sets the left bound to -1 and the right bound to `W - 1`. numpy reads
  -1 as column `W - 1`, so `img[h1:h2, -1:W-1]` is empty, and `cv2.resize` raises at line 94.
  For example, a box from row 10 to row 100 and column 40 to column 60 in a frame 98 columns
  wide gives the square with rows 2..100 and bounds -1..97. The slice is also empty when the
  crop's top row is at or past row `H`, that is, below the frame's last row. This is `EmptyCrop`, fatal in the same way.
- **End of the video.** The loop never checks `ret` (line 147). A failed read only raises when
  the counter makes it a processed read: `cvtColor(None)` raises at line 153, before detection.
  Until then, failed reads are counted like frames. This is the `NoFrame` read. A run is a finite
  sequence of reads and ends `Exhausted` when they are used up.
- **Horizontal placement.** While the square is narrower than the frame (`height < W`), its
  left edge is clamped into `[0, W - height - 1]`, so the square lies within the frame. When
  `height == W`, a negative centred left edge becomes 0 and the whole width is cut; otherwise the
  slice is empty, as above. When `height > W`, a negative centred left edge becomes 0, and the
  right bound `height` lies past the frame, so numpy stops at the last column. Otherwise the left
  bound becomes `W - height - 1 < -1`, which numpy counts back from the right edge (stopping at
  column 0), and the right bound is `W - 1`. In both `height > W` cases the region is narrower
  than the square. `Square` computes the integer bounds as the script does, and `Cut` the region
  numpy selects with them.
- **Box above the frame.** When a box starts above the frame (`top < 0`), the new top is clamped
  to 0, below the box's top. The crop is then shorter than the box. `Square` states "the crop only
  grows" only for `top >= 0`.

## Model

| member | source | states |
|---|---|---|
| `Prelude.TruncDiv` | mobilefacenet_experiment/test_video.py:78-86 | `int(a / d)` truncates toward zero: for `a >= 0` the remainder `a - q*d` is in `[0, d)`, for `a < 0` it is in `(-d, 0]` |
| `Normalizer.Tallest` | mobilefacenet_experiment/test_video.py:62-69 | the index the box scan keeps, when there is one, is a position of the box list |
| `Normalizer.TallestSelects` | mobilefacenet_experiment/test_video.py:62-69 | the scan keeps no box exactly when no box has positive height (`box` stays `None`); otherwise it keeps a box taller than every earlier box and at least as tall as every later one |
| `Normalizer.FirstTallestUnique` | mobilefacenet_experiment/test_video.py:65-69 | at most one box is "first tallest", so the extents alone decide which box is kept |
| `Normalizer.Square` | mobilefacenet_experiment/test_video.py:77-91 | the top is clamped to `>= 0` and moved up by `extent/12` rounded to a whole pixel unless the clamp stops it; the bottom is kept; for `top >= 0` the crop is at least as tall as the box; the crop is a square; it is centred on the box to within a pixel when that fits in the frame; it is pushed to column 0 when the centred square would start left of the frame, and to `W - height - 1` when it starts inside but would reach past the right edge; when `height < W`, its columns lie in `[0, W - 1]` |
| `Normalizer.CutEmpty` | mobilefacenet_experiment/test_video.py:77-94 | for a box reaching into the frame the crop has positive height; its slice has no rows exactly when the crop's top is at or past row `H`, that is, below the frame's last row; in a frame at least two columns wide it has no columns exactly when the left bound is -1, which only a square exactly as wide as the frame gets |
| `Normalizer.CutInside` | mobilefacenet_experiment/test_video.py:77-93 | for a box starting inside the frame whose square is narrower than the frame and ends within it, the slice cuts out exactly the square, and it is not empty |
| `Normalizer.CropNoBox` | mobilefacenet_experiment/test_video.py:62-71 | `crop_face` raises at line 71 (`NoBox`) exactly when no box has positive height |
| `Normalizer.CropTooSmall` | mobilefacenet_experiment/test_video.py:71-75 | `crop_face` returns the bare image (`TooSmall`) exactly when the first tallest box is under 60 pixels |
| `Normalizer.CropEmpty` | mobilefacenet_experiment/test_video.py:71-94 | `cv2.resize` raises (`EmptyCrop`) exactly when the first tallest box is at least 60 pixels tall but the slice of its square is empty |
| `Normalizer.CropCropped` | mobilefacenet_experiment/test_video.py:71-95 | otherwise it returns the region the square of the first tallest box (at least 60 pixels tall) selects, a non-empty region inside the frame, together with that box unadjusted |
| `Normalizer.CropFace` | mobilefacenet_experiment/test_video.py:60-95 | the imperative scan (`H_max`, `box`) followed by the geometry and the slice computes exactly `Crop` |
| `Normalizer.ExampleTallestChosen` | mobilefacenet_experiment/test_video.py:65-69 | with box heights 40, 90 and 70, the 90-pixel box is cropped |
| `Normalizer.ExampleTooSmall` | mobilefacenet_experiment/test_video.py:73-75 | a face 59 pixels tall is not cropped |
| `Normalizer.ExampleSquareAsWideAsFrame` | mobilefacenet_experiment/test_video.py:77-94 | a 90-pixel face in a frame 98 columns wide gets the square with rows 2..100 and column bounds -1..97, whose slice is empty, so resizing raises |
| `Gallery.Gallery.Put` | mobilefacenet_experiment/test_video.py:123 | a dict store: the value is replaced; a new key goes to the end of the iteration order and an existing key keeps its place; the keys stay distinct and match the contents |
| `Gallery.Decimal` | mobilefacenet_experiment/test_video.py:123 | `str(idx)` has at least one digit, and at least two from 10 on |
| `Gallery.DecimalInjective` | mobilefacenet_experiment/test_video.py:123 | different indices are written differently |
| `Gallery.EnrollKeyInjective` | mobilefacenet_experiment/test_video.py:111-123 | the keys `name + '_' + str(idx)` of different photos are different |
| `Gallery.WrittenDomain` | mobilefacenet_experiment/test_video.py:111-123 | the keys enrollment writes are exactly the keys of the photos whose detection returned boxes; no other key is touched |
| `Gallery.WrittenValue` | mobilefacenet_experiment/test_video.py:111-123 | each such photo's key holds that photo's embedding |
| `Gallery.WrittenCount` | mobilefacenet_experiment/test_video.py:110-124 | the number of entries written equals the success count `num_img_useful` (the photos whose detection neither raised nor came back empty) |
| `Gallery.AppendedKeys` | mobilefacenet_experiment/test_video.py:123 | the keys added to the iteration order are the written keys the dict did not hold before, each once |
| `Gallery.NextKeyFresh` | mobilefacenet_experiment/test_video.py:111-123 | the key of photo `idx` was not written by any earlier photo |
| `Gallery.NoneBreaksMeans` | mobilefacenet_experiment/test_video.py:118-121 | "no photo so far breaks enrollment" means: no photo so far has boxes and a crop that raises (no box of positive height, a face under 60 pixels, or an empty slice) |
| `Gallery.EnrollStep` | mobilefacenet_experiment/test_video.py:114-124 | a photo with boxes writes its key, adds one to the count and extends the key order when the key is new; a skipped photo changes nothing |
| `Gallery.Enroll` | mobilefacenet_experiment/test_video.py:108-126 | the enrolled gallery is the old one merged with the entries of the photos with boxes, in photo order, and everything else is unchanged. On completion the count is the number of such photos. Otherwise it stops at the first photo whose crop raises, with the entries of the photos before it |
| `Matcher.Leader` | mobilefacenet_experiment/test_video.py:47-53 | the index the scan keeps, when there is one, is a position of the gallery |
| `Matcher.LeaderSelects` | mobilefacenet_experiment/test_video.py:47-53 | the scan keeps an entry exactly when some score beats the sentinel -10, and then the first entry with the highest score |
| `Matcher.LeaderStep` | mobilefacenet_experiment/test_video.py:49-53 | one scan step: a strictly higher score takes over, an equal or lower one does not |
| `Matcher.LeaderUnique` | mobilefacenet_experiment/test_video.py:49-53 | at most one entry is the first with the highest score |
| `Matcher.PredictMeaning` | mobilefacenet_experiment/test_video.py:46-57 | the reported score is at least -10 and at least every score, and is attained unless it is -10. A best score under 0.4 gives `unknown` with that score. Otherwise the name is the key of the first entry with the highest score |
| `Matcher.PredictEmpty` | mobilefacenet_experiment/test_video.py:47-56 | an empty gallery gives `unknown` with score -10 |
| `Matcher.PredictAppendNotHigher` | mobilefacenet_experiment/test_video.py:51-53 | a later entry scoring no higher than the current best changes nothing (first seen wins ties) |
| `Matcher.PredictAppendHigher` | mobilefacenet_experiment/test_video.py:51-56 | a later entry scoring strictly higher becomes the answer, subject to the threshold |
| `Matcher.PredictPerfectMatch` | mobilefacenet_experiment/test_video.py:43-57 | when an entry scores 1, the highest cosine similarity, the score is 1 and the name is the key of the first entry scoring 1: every earlier entry scores less |
| `Matcher.ExampleBelowThreshold` | mobilefacenet_experiment/test_video.py:55-57 | scores A 0.35, B 0.10 give `unknown` with 0.35 |
| `Matcher.ExampleAboveThreshold` | mobilefacenet_experiment/test_video.py:51-57 | scores A 0.6, B 0.8 give B with 0.8 |
| `Matcher.PredictName` | mobilefacenet_experiment/test_video.py:46-57 | the imperative scan (`max_sim`, `pre_name`) and threshold compute exactly `Predict` over the gallery's scores in insertion order |
| `StreamController.FrameCounter.constructor` | mobilefacenet_experiment/test_video.py:145 | the counter starts at 0 |
| `StreamController.FrameCounter.Advance` | mobilefacenet_experiment/test_video.py:146-151 | a read is processed exactly when the incremented counter is a multiple of 8, and the counter then restarts at 0; the counter stays in 0..7 |
| `StreamController.CountOneMore` | mobilefacenet_experiment/test_video.py:148-151 | one more read adds one period exactly when it is a processed read, and otherwise adds one to the remainder |
| `StreamController.Process` | mobilefacenet_experiment/test_video.py:153-173 | a processed read raises exactly when it has no frame, or has boxes whose crop raises; it is skipped exactly when it is a frame where the detector raised or found nothing; otherwise it shows the first tallest box and the match of the frame's embedding against the gallery |
| `StreamController.ProcessRead` | mobilefacenet_experiment/test_video.py:153-173 | the loop body as the script runs it (conversion, detection, `crop_face`, `get_predict_name`) computes exactly `Process` |
| `StreamController.SafeUpToMeans` | mobilefacenet_experiment/test_video.py:147-173 | "no read so far stopped the loop" means: no processed read so far lacked a frame or had boxes whose crop raises |
| `StreamController.DisplayedCadence` | mobilefacenet_experiment/test_video.py:145-173 | results are shown only for processed reads, in read order, at most one per eight reads |
| `StreamController.Run` | mobilefacenet_experiment/test_video.py:145-173 | after the reads taken, reads 8, 16, 24, ... were processed and no others, whatever they held. The results shown are those of processed frames with a croppable face. The loop stops only at a processed read without a frame or with a crop that raises |

## Left out

- Model and device setup, cuDNN flags and the unused `id_name` file (lines 20-41): library state and I/O.
- The face detector's internals (lines 115, 158): a detection is an input, `DetectorError` or a list of boxes already truncated to integers.
- `get_face_feature` (lines 97-106) and the embedding network: each photo or frame carries the embedding the network would produce for its crop.
- `cosin_metric` (lines 43-44): floating point with a square root. Similarity is the parameter `sim`; `PredictPerfectMatch` assumes only that scores are at most 1.
- Pixels and the resampling to 112x112 (lines 93-94): only the region numpy selects is modelled, with the one way resizing fails, an empty region.
- Floating point in lines 78 and 86: the model divides exactly and truncates toward zero. Doubles give the same integers for pixel-sized coordinates.
- Loading the persisted gallery from JSON (line 131), `os.listdir` order and PIL image loading (lines 111-113): the gallery is any valid one, photos come in directory order, and opening a photo is assumed to succeed.
- Video capture, `imshow`, `putText`, `rectangle`, `waitKey` and `release` (lines 141-176): I/O and display. The discarded `cvtColor` result (line 153) matters only in that it raises on a missing frame.
- The endless `while True` loop: a run is a finite sequence of reads, ending `Exhausted` when they are used up.
- Printing, including the `'%.4f'` formatting (line 57) and the enrollment count message (line 125): the matcher returns the name and score, and enrollment returns the count.
- Normalizer.Tallest: its own contract states only that the index is in range. The selection property is the lemma `TallestSelects`, kept apart so that callers do not unfold it.
- Matcher.Leader: same arrangement, with the property in `LeaderSelects`.
