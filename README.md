# Paper detector: post-processing and capture control

A Dafny model of the two pieces of sequential logic in the paper detector
app.

- **The backend's `predict` post-processing** (`paper-backend.py`). The
  detector's raw output is reshaped into a 5 × 8400 table. Its rows are cx,
  cy, w, h and confidence; each column is an anchor. The anchors whose
  confidence is at least 0.84 are kept. Each kept anchor becomes a corner box
  `[x_min, y_min, x_max, y_max]`, paired with its raw confidence. Then
  `apply_nms` runs non-maximum suppression (at most 100 boxes, IoU
  threshold 0.5), and the surviving boxes and scores are gathered.
- **The detection screen** (`PaperDetectionScreen.js`). It has the record
  button, which starts and stops a periodic frame-capture interval. It has
  the camera-permission guard. It draws one red rectangle per returned box.

Modules:

| file | module | what |
|---|---|---|
| `wrappers.dfy` | `Wrappers` | `Option`. `None` stands for a raised numpy error or JavaScript's `null`. |
| `geometry.dfy` | `Geometry` | Corner boxes, the centre/size conversion, area, intersection, IoU, and exchanging the x and y axes. |
| `nms.dfy` | `Nms` | The reference greedy non-maximum suppression behind `apply_nms`, with its ranking and its properties. |
| `backend.dfy` | `Backend` | Reshape, the confidence filter, column selection, corner boxes, score pairing, the gathers and the whole pipeline. |
| `screen.dfy` | `Screen` | The capture state machine as a class, the button title, the permission guard and `renderBoxes`. |

Modelling decisions:

- **Numbers.** All numbers are `real`, so `/ 2` and every comparison are exact.
- **The reshape.** numpy raises when the buffer does not hold 5 · 8400 values.
  `Backend.Reshape` returns `None` in that case.
- **Comments versus code.** The model follows the code wherever a comment says
  otherwise.
  - The threshold is 0.84 (paper-backend.py:66), not the 0.3 that the comment
    on line 65 mentions. The pipeline takes the confidence threshold as a
    parameter; `Backend.Predict` passes 0.84, as the handler does, and the
    pipeline's properties hold for every threshold.
  - The scores are the raw confidence row (line 63). The maximum computed on
    line 62 is never used to scale them.
  - The boxes are not rescaled to the image size. The rescale on lines 76-85
    is an inert string literal.
- **The NMS call.** `tf.image.non_max_suppression` is not visible in the
  repository. It is modelled by a reference greedy suppression:
  1. Rank the candidates by descending score, with ties going to the lower
     index.
  2. Keep the best remaining candidate.
  3. Drop every remaining candidate that overlaps it too much.
  4. Repeat until nothing remains or the cap is reached.

  Whether an IoU exactly at the threshold counts as too much is decided
  inside the library. The model takes that rule as a parameter
  (`Nms.Cutoff`, and `inclusive` in the pipeline), and every property is
  proved for both rules.
- **The record button.** React state updates happen at once, one per press.
  The interval handle is an `Option` of a positive handle. The JavaScript
  timer table that `setInterval` and `clearInterval` act on is modelled as
  the set `running` of scheduled handles and the counter `nextHandle`.

## Model

| member | source | states |
|---|---|---|
| `Backend.Reshape` | paper-backend.py:59 | The reshape succeeds exactly when the buffer holds rows · cols values. The result then has `rows` rows of `cols` values each. |
| `Backend.ReshapeAt` | paper-backend.py:59 | Attribute r of anchor i in the reshaped table is element r · 8400 + i of the buffer (row-major order). |
| `Backend.FlattenReshape` | paper-backend.py:59 | Reading the reshaped table back row by row gives the original buffer. Nothing is lost or reordered. |
| `Backend.ReshapeFlatten` | paper-backend.py:59 | Flattening a well-shaped table and reshaping it gives back the same table. |
| `Backend.AtLeast` | paper-backend.py:66 | `np.where(c >= 0.84)[0]`. Every returned index is valid and its value reaches the threshold (inclusive). The indices strictly ascend, so there are no duplicates. Every index whose value reaches the threshold is returned. |
| `Backend.AtLeastMonotone` | paper-backend.py:66 | Raising the threshold never keeps more anchors. |
| `Backend.Columns` | paper-backend.py:67 | `output_data[:, idx]` keeps every row. Entry (r, k) is entry (r, idx[k]) of the table. |
| `Backend.Gather` | paper-backend.py:92-93 | `s[idx]` has one element per index, in index order. Element k is `s[idx[k]]`. |
| `Backend.GatherGather` | paper-backend.py:88-93 | Gathering the gathered scores by the NMS indices equals gathering the raw scores once, by the composed indices. |
| `Geometry.CornerBox` | paper-backend.py:70-75 | Each corner lies half the size from the centre. So x_max − x_min = w, y_max − y_min = h, and the box is centred on (cx, cy). For w, h ≥ 0, the minimum does not exceed the maximum on either axis. |
| `Geometry.CornerBoxRoundTrip` | paper-backend.py:70-75 | The centre and size can be read back from the corner box exactly. |
| `Geometry.CenterSizeRoundTrip` | paper-backend.py:70-75 | Every corner box is the corner box of its own centre and size. |
| `Backend.AnchorBox` | paper-backend.py:70-75 | The box of anchor i has the anchor's width and height and is centred on the anchor's (cx, cy). |
| `Backend.Corners` | paper-backend.py:70-75 | `np.stack(..., axis=-1)` gives one box per selected column, in column order. Box k is the corner box of column k. |
| `Backend.Candidates` | paper-backend.py:61-88 | Boxes, scores and kept anchors have equal length. Position k of the boxes and of the scores comes from the same anchor. That anchor's confidence reaches the threshold (0.84 at the handler). The box is the anchor's corner box and the score is the anchor's raw confidence, unscaled. The anchors ascend, and every confident anchor is among them. |
| `Backend.Sources` | paper-backend.py:91-93 | Each returned detection comes from a valid anchor, one per detection. |
| `Backend.PostProcess` | paper-backend.py:88-93 | Suppression and the gathers return equally many boxes and scores, at most 100. `Backend.PostProcessSpec` states what is returned and `Backend.PostProcessMaximal` what is left out. |
| `Backend.PostProcessSpec` | paper-backend.py:88-93 | The handler returns equally many boxes and scores, at most 100. Position k of both comes from the same confident anchor. The anchors are listed by descending confidence, with ties going to the lower anchor. No returned box overlaps an earlier one too much. |
| `Backend.Predict` | paper-backend.py:56-93 | The pipeline from the raw output fails exactly when the output does not hold 5 · 8400 values. Otherwise it returns equally many boxes and scores, at most 100. |
| `Backend.NoConfidentAnchor` | paper-backend.py:66-93 | When no anchor reaches the confidence threshold, the handler returns empty boxes and scores rather than failing. |
| `Backend.PostProcessMaximal` | paper-backend.py:88-93 | Unless 100 detections are returned, every anchor reaching the confidence threshold that is left out is overlapped too much by the box of a returned anchor ranked ahead of it (higher confidence, or equal confidence and lower index). |
| `Backend.AnchorRanking` | paper-backend.py:61-93 | The anchors in the order suppression visits them are ranked by confidence, ties going to the lower anchor. They are exactly the anchors reaching the threshold. |
| `Backend.GreedyRelabel` | paper-backend.py:88-93 | Suppressing candidate positions and then reading off their anchors gives what suppressing the anchors themselves, with the anchors' own boxes, gives. |
| `Backend.SourcesRanking` | paper-backend.py:61-93 | The returned anchors are what greedy suppression keeps when it runs directly over the confident anchors, ranked by confidence, with each anchor's own box. |
| `Backend.SourcesMonotone` | paper-backend.py:66-93 | Raising the confidence threshold returns a prefix of the anchors returned at the lower threshold: never more, and the same ones first. |
| `Backend.PostProcessMonotone` | paper-backend.py:66-93 | Raising the confidence threshold returns a prefix of the boxes and of the scores returned at the lower threshold, so never more detections. |
| `Backend.PostProcessIdempotent` | paper-backend.py:91-93 | Running suppression again on the returned detections keeps all of them, in their order. |
| `Backend.ZeroSizeAnchor` | paper-backend.py:70-75 | An anchor of zero width or height gives a box that neither suppresses nor is suppressed by any other box. |
| `Geometry.IoU` | paper-backend.py:13-14 | The IoU lies between 0 and 1. It is positive only when the boxes share some area. |
| `Geometry.IoUSymmetric` | paper-backend.py:13-14 | The IoU does not depend on the order of the two boxes. |
| `Geometry.IoUSelf` | paper-backend.py:13-14 | A box with some area has IoU 1 with itself. |
| `Geometry.ZeroAreaIoU` | paper-backend.py:13-14 | A box without area has IoU 0 with any box, in either order. |
| `Geometry.SwapAxesIoU` | paper-backend.py:70-75 | Exchanging x and y in both boxes leaves their IoU unchanged. |
| `Nms.RankedDistinct` | paper-backend.py:11-15 | A ranked index list has no repeated index, and its scores never increase. |
| `Nms.SortByScore` | paper-backend.py:11-15 | The candidate order is ranked: descending score, ties to the lower index. It holds every candidate exactly once. |
| `Nms.Overlaps` | paper-backend.py:11-15 | A box overlaps a selected box too much only when their IoU reaches the threshold, and always when the IoU exceeds it, whichever rule applies at equality. |
| `Nms.Suppress` | paper-backend.py:11-15 | Dropping the candidates that overlap the chosen box keeps valid indices and returns no more candidates than it was given. Which candidates survive is stated by `Nms.SuppressMembers`. |
| `Nms.SuppressMembers` | paper-backend.py:11-15 | A candidate survives a suppression step exactly when it does not overlap the chosen box too much. |
| `Nms.Greedy` | paper-backend.py:11-15 | Greedy suppression keeps at most the cap and at most as many as it is given. It keeps only valid indices taken from the candidates. |
| `Nms.ApplyNms` | paper-backend.py:11-15 | `apply_nms` returns valid indices into `boxes`, at most `max_output_size` of them (100 at the call). They are distinct and listed best first. No kept box overlaps an earlier kept box too much. |
| `Nms.GreedyRanked` | paper-backend.py:11-15 | Greedy suppression over a ranked list returns a ranked list. |
| `Nms.GreedyApart` | paper-backend.py:11-15 | No box that greedy suppression keeps overlaps an earlier kept box too much. |
| `Nms.GreedyMaximal` | paper-backend.py:11-15 | Unless the cap is reached, every candidate left out overlaps too much a kept box ranked ahead of it (higher score, or equal score and lower index). |
| `Nms.ApplyNmsMaximal` | paper-backend.py:11-15 | Unless 100 boxes are kept, every box `apply_nms` leaves out overlaps too much a kept box ranked ahead of it. |
| `Nms.GreedyCongruent` | paper-backend.py:11-15 | Greedy suppression depends only on which pairs of boxes overlap too much. |
| `Nms.ApplyNmsSwapAxes` | paper-backend.py:70-75 | Boxes handed over as [x1, y1, x2, y2] rather than the [y1, x1, y2, x2] order TensorFlow documents give the same kept indices. The coordinate order at the call site is harmless. |
| `Nms.GreedyKeepsApart` | paper-backend.py:11-15 | Over candidates none of which overlaps a later one too much, greedy suppression keeps the first `maxOutputSize` of them. |
| `Nms.ApplyNmsNoOverlap` | paper-backend.py:11-15 | When no two boxes overlap too much, `apply_nms` keeps the best `max_output_size` boxes, best first. Two disjoint boxes both survive in descending score order. A cap of one keeps only the best box. |
| `Nms.RankedUnique` | paper-backend.py:11-15 | Two ranked lists of the same candidates are equal, so the ranking is deterministic. |
| `Nms.ApplyNmsFixedPoint` | paper-backend.py:11-15 | Boxes that are already in descending score order, no more than the cap, with no box overlapping a later one too much, are all kept in their order. |
| `Nms.RankedAbove` | paper-backend.py:11-15 | A ranked list of exactly the candidates of a ranked list that reach a score is a prefix of that list. |
| `Nms.SuppressPrefix` | paper-backend.py:11-15 | Suppressing a prefix of the candidates keeps a prefix of what suppressing all of them keeps. |
| `Nms.GreedyPrefix` | paper-backend.py:11-15 | Greedy suppression over a prefix of the candidates keeps a prefix of what it keeps over all of them. |
| `Nms.IdenticalBoxesKeepBest` | paper-backend.py:11-15 | Of two copies of a box with some area, only the better-scoring one is kept, for any threshold below 1. |
| `Nms.ZeroAreaNeverOverlaps` | paper-backend.py:11-15 | A box without area never suppresses another box and is never suppressed, for any positive threshold, and for threshold 0 when only IoU above it suppresses. |
| `Screen.Started` | PaperDetectionScreen.js:46-50 | With a handle held, `startFrameCapture` changes nothing. Without one, it schedules exactly one new interval and holds its handle. It leaves the recording flag alone. |
| `Screen.Stopped` | PaperDetectionScreen.js:52-57 | `stopFrameCapture` leaves no handle held. It unschedules the held interval, if any. With no handle held, it changes nothing. |
| `Screen.Pressed` | PaperDetectionScreen.js:83-90 | A press flips `isRecording`. Stopping leaves no interval handle held, and starting leaves one held. The scheduled timers are stated by `Screen.PressedConsistent`. |
| `Screen.PressedConsistent` | PaperDetectionScreen.js:83-90 | A press flips `isRecording`. Starting to record leaves exactly one capture interval scheduled, and stopping leaves none. A consistent state stays consistent. |
| `Screen.PressesKeepConsistent` | PaperDetectionScreen.js:83-90 | From the first render (not recording, no handle, lines 12-14), any number of presses keeps the invariant: recording exactly when a handle is held, at most one capture interval scheduled. The screen records after an odd number of presses. |
| `Screen.ButtonTitle` | PaperDetectionScreen.js:91 | The title is "Stop recording" exactly when recording, and "Start recording" exactly when not. |
| `Screen.CaptureControls.constructor` | PaperDetectionScreen.js:12-14 | The first render is not recording, holds no handle, has nothing scheduled, and satisfies the invariant. |
| `Screen.CaptureControls.StartFrameCapture` | PaperDetectionScreen.js:46-50 | Updates the fields as `Started` says: a no-op while a handle is held. |
| `Screen.CaptureControls.StopFrameCapture` | PaperDetectionScreen.js:52-57 | Updates the fields as `Stopped` says. The held interval is cleared and the handle reset to null; with no handle it is a no-op. |
| `Screen.CaptureControls.Press` | PaperDetectionScreen.js:83-90 | Not recording: sets the flag and starts capture. Recording: clears the flag and stops capture. It keeps the invariant. |
| `Screen.ShowsNoAccess` | PaperDetectionScreen.js:59-61 | "No access to camera" shows exactly when permission was refused (`hasPermission === false`), not while it is still unknown (`null`). |
| `Screen.RenderBoxes` | PaperDetectionScreen.js:63-74 | One rectangle per box, in order, keyed by its index. It covers exactly its box: left = x_min, top = y_min, width = x_max − x_min, height = y_max − y_min. |
| `Screen.RenderedAnchorSize` | PaperDetectionScreen.js:71-72 | Drawn for a backend detection, a rectangle is exactly as wide and as tall as the anchor it comes from, and it is centred on the anchor's centre. |

## Left out

- The Flask route, the missing-image 400 response, JSON packaging and `print` (paper-backend.py:27-30, 97-106) are left out. They are HTTP I/O.
- Base64 decoding, PIL conversion and resizing, the transpose and the normalisation (paper-backend.py:33-46) are left out. They are image codecs and floating-point preprocessing.
- Loading, allocating and invoking the TFLite interpreter (paper-backend.py:18-24, 49-57) is left out. These are foreign calls. The model takes the flat detector output as its input.
- IEEE float32 rounding is not modelled. All numbers are exact reals.
- The rescale to the original image size (paper-backend.py:76-85) is left out. It is inert text. `original_width`/`original_height` and `max_confidence` are computed but never used.
- Nms.ApplyNms: TensorFlow's kernel itself is not modelled; a reference greedy suppression stands in for it. Which way an IoU exactly at the threshold goes is left as a parameter, and every property holds for both.
- Geometry.IoU: a box whose maximum lies below its minimum (a negative width or height from the detector) counts as having no area. TensorFlow's kernel would reorder such a box's corners instead.
- Camera permission requests, `takePictureAsync`, the axios POST and the `setBoxes` update it triggers (PaperDetectionScreen.js:17-44) are left out. They are I/O.
- The 1000 ms timing of `setInterval` is left out, and so are overlapping asynchronous capture callbacks. They are timers and asynchrony. Only the scheduling and clearing of the interval is modelled.
- React's deferred `setState` is not modelled. Each press's updates take effect at once.
- `renderBoxes` over a box array with fewer than four entries (JavaScript would give `NaN` sizes) is left out. The backend always sends four coordinates.
- The JSX layout and styles (PaperDetectionScreen.js:77-127) and App.js are left out. They are UI only.
