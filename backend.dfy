/**
 * The post-inference part of the backend's `predict` handler
 * (paper-backend.py:56-93): the detector's raw output is read as a table of
 * 5 attribute rows (cx, cy, w, h, confidence) by 8400 anchor columns, the
 * anchors whose confidence reaches 0.84 are kept, turned into corner boxes
 * paired with their confidence, and thinned out by non-maximum suppression
 * (at most 100 boxes, IoU threshold 0.5).
 */
module Backend {
  import opened Wrappers
  import opened Geometry
  import Nms

  /** Rows of the output table, one per anchor attribute. */
  const Attributes: nat := 5
  const CxRow: nat := 0
  const CyRow: nat := 1
  const WidthRow: nat := 2
  const HeightRow: nat := 3
  const ConfidenceRow: nat := 4

  /** Columns of the output table, one per anchor. */
  const AnchorCount: nat := 8400

  const ConfidenceThreshold: real := 0.84
  const MaxOutputSize: nat := 100
  const IouThreshold: real := 0.5

  /** A two-dimensional array as a sequence of rows. */
  type Table = seq<seq<real>>

  predicate Shaped(t: Table, rows: nat, cols: nat)
  {
    |t| == rows && forall r :: 0 <= r < rows ==> |t[r]| == cols
  }

  // ---------------------------------------------------------------------------
  // Reshape (paper-backend.py:59)
  // ---------------------------------------------------------------------------

  lemma MulStep(r: nat, cols: nat)
    requires r > 0
    ensures r * cols == cols + (r - 1) * cols
  {
  }

  /** `rows` consecutive runs of `cols` values. */
  function Rows(flat: seq<real>, rows: nat, cols: nat): (t: Table)
    requires |flat| == rows * cols
    ensures Shaped(t, rows, cols)
    decreases rows
  {
    if rows == 0 then []
    else
      MulStep(rows, cols);
      [flat[..cols]] + Rows(flat[cols..], rows - 1, cols)
  }

  /**
   * Row-major reshape of a flat buffer into `rows` rows of `cols` values;
   * None when the buffer does not hold exactly rows * cols values (numpy
   * raises in that case).
   */
  function Reshape(flat: seq<real>, rows: nat, cols: nat): (t: Option<Table>)
    ensures t.Some? <==> |flat| == rows * cols
    ensures t.Some? ==> Shaped(t.value, rows, cols)
  {
    if |flat| != rows * cols then None else Some(Rows(flat, rows, cols))
  }

  /** Element (r, i) of the reshaped table is element r * cols + i of the buffer. */
  lemma ReshapeAt(flat: seq<real>, rows: nat, cols: nat, r: nat, i: nat)
    requires |flat| == rows * cols && r < rows && i < cols
    ensures r * cols + i < |flat|
    ensures Reshape(flat, rows, cols).value[r][i] == flat[r * cols + i]
  {
    RowsAt(flat, rows, cols, r, i);
  }

  lemma {:induction false} RowsAt(flat: seq<real>, rows: nat, cols: nat, r: nat, i: nat)
    requires |flat| == rows * cols && r < rows && i < cols
    ensures r * cols + i < |flat|
    ensures Rows(flat, rows, cols)[r][i] == flat[r * cols + i]
    decreases r
  {
    IndexBound(rows, cols, r, i);
    if r > 0 {
      RowsShift(flat, rows, cols, r);
      var tail := flat[cols..];
      RowsAt(tail, rows - 1, cols, r - 1, i);
      TailIndex(flat, cols, r, i);
    }
  }

  lemma IndexBound(rows: nat, cols: nat, r: nat, i: nat)
    requires r < rows && i < cols
    ensures r * cols + i < rows * cols
  {
    assert (r + 1) * cols <= rows * cols;
  }

  /** Row r of the table is row r - 1 of the table made from the buffer after the first row. */
  lemma RowsShift(flat: seq<real>, rows: nat, cols: nat, r: nat)
    requires |flat| == rows * cols && 0 < r < rows
    ensures cols <= |flat| && |flat[cols..]| == (rows - 1) * cols
    ensures Rows(flat, rows, cols)[r] == Rows(flat[cols..], rows - 1, cols)[r - 1]
  {
    MulStep(rows, cols);
  }

  lemma TailIndex(flat: seq<real>, cols: nat, r: nat, i: nat)
    requires 0 < r && i < cols && r * cols + i < |flat|
    ensures cols <= |flat| && (r - 1) * cols + i < |flat| - cols
    ensures flat[cols..][(r - 1) * cols + i] == flat[r * cols + i]
  {
    MulStep(r, cols);
  }

  /** The row-major contents of a table. */
  function Flatten(t: Table): seq<real>
  {
    if t == [] then [] else t[0] + Flatten(t[1..])
  }

  lemma {:induction false} FlattenLength(t: Table, rows: nat, cols: nat)
    requires Shaped(t, rows, cols)
    ensures |Flatten(t)| == rows * cols
    decreases rows
  {
    if rows > 0 {
      MulStep(rows, cols);
      FlattenLength(t[1..], rows - 1, cols);
    }
  }

  /** Reshaping then flattening gives back the buffer. */
  lemma {:induction false} FlattenReshape(flat: seq<real>, rows: nat, cols: nat)
    requires |flat| == rows * cols
    ensures Flatten(Reshape(flat, rows, cols).value) == flat
    decreases rows
  {
    if rows > 0 {
      MulStep(rows, cols);
      var t := Rows(flat, rows, cols);
      assert t[1..] == Rows(flat[cols..], rows - 1, cols);
      FlattenReshape(flat[cols..], rows - 1, cols);
      assert flat == flat[..cols] + flat[cols..];
    }
  }

  /** Flattening then reshaping gives back a well-shaped table. */
  lemma {:induction false} ReshapeFlatten(t: Table, rows: nat, cols: nat)
    requires Shaped(t, rows, cols)
    ensures Reshape(Flatten(t), rows, cols) == Some(t)
    decreases rows
  {
    FlattenLength(t, rows, cols);
    if rows > 0 {
      MulStep(rows, cols);
      var u := t[1..];
      ReshapeFlatten(u, rows - 1, cols);
      var flat := Flatten(t);
      assert flat == t[0] + Flatten(u);
      assert flat[..cols] == t[0] && flat[cols..] == Flatten(u);
      assert t == [t[0]] + u;
    }
  }

  // ---------------------------------------------------------------------------
  // Confidence filter (paper-backend.py:61-67)
  // ---------------------------------------------------------------------------

  /**
   * The ascending indices of the values reaching the threshold, as
   * `np.where(values >= threshold)[0]` returns them.
   */
  function AtLeast(values: seq<real>, threshold: real): (idx: seq<nat>)
    ensures forall k :: 0 <= k < |idx| ==> idx[k] < |values| && values[idx[k]] >= threshold
    ensures forall a, b :: 0 <= a < b < |idx| ==> idx[a] < idx[b]
    ensures forall i :: 0 <= i < |values| && values[i] >= threshold ==> i in idx
  {
    if values == [] then []
    else
      var n := |values| - 1;
      var prev := AtLeast(values[..n], threshold);
      if values[n] >= threshold then prev + [n] else prev
  }

  /** A higher threshold never keeps more anchors. */
  lemma {:induction false} AtLeastMonotone(values: seq<real>, low: real, high: real)
    requires low <= high
    ensures |AtLeast(values, high)| <= |AtLeast(values, low)|
  {
    if values != [] {
      AtLeastMonotone(values[..|values| - 1], low, high);
    }
  }

  // ---------------------------------------------------------------------------
  // Column selection, corner boxes and gathers (paper-backend.py:67-93)
  // ---------------------------------------------------------------------------

  /** `s[idx]`: the elements of s at the given indices, in the order of idx. */
  function Gather<T>(s: seq<T>, idx: seq<nat>): (g: seq<T>)
    requires forall k :: 0 <= k < |idx| ==> idx[k] < |s|
    ensures |g| == |idx|
    ensures forall k :: 0 <= k < |idx| ==> g[k] == s[idx[k]]
  {
    seq(|idx|, k requires 0 <= k < |idx| => s[idx[k]])
  }

  /** Gathering twice is gathering once by the composed indices. */
  lemma GatherGather<T>(s: seq<T>, outer: seq<nat>, inner: seq<nat>)
    requires forall k :: 0 <= k < |outer| ==> outer[k] < |s|
    requires forall k :: 0 <= k < |inner| ==> inner[k] < |outer|
    ensures forall k :: 0 <= k < |inner| ==> Gather(outer, inner)[k] < |s|
    ensures Gather(Gather(s, outer), inner) == Gather(s, Gather(outer, inner))
  {
  }

  lemma GatherCons<T>(s: seq<T>, i: nat, idx: seq<nat>)
    requires i < |s| && forall k :: 0 <= k < |idx| ==> idx[k] < |s|
    ensures forall k :: 0 <= k < |[i] + idx| ==> ([i] + idx)[k] < |s|
    ensures Gather(s, [i] + idx) == [s[i]] + Gather(s, idx)
  {
  }

  /** `t[:, idx]`: the chosen columns of every row. */
  function Columns(t: Table, idx: seq<nat>): (c: Table)
    requires forall r, k :: 0 <= r < |t| && 0 <= k < |idx| ==> idx[k] < |t[r]|
    ensures Shaped(c, |t|, |idx|)
    ensures forall r, k :: 0 <= r < |t| && 0 <= k < |idx| ==> c[r][k] == t[r][idx[k]]
  {
    seq(|t|, r requires 0 <= r < |t| => Gather(t[r], idx))
  }

  /** The corner box of column i of a table whose rows 0-3 are cx, cy, w, h. */
  function AnchorBox(t: Table, i: nat): (b: Box)
    requires Shaped(t, Attributes, AnchorCount) && i < AnchorCount
    ensures b.xMax - b.xMin == t[WidthRow][i] && b.yMax - b.yMin == t[HeightRow][i]
    ensures b.xMin + b.xMax == 2.0 * t[CxRow][i] && b.yMin + b.yMax == 2.0 * t[CyRow][i]
  {
    CornerBox(t[CxRow][i], t[CyRow][i], t[WidthRow][i], t[HeightRow][i])
  }

  /** `np.stack([x_min, y_min, x_max, y_max], axis=-1)` over the columns of `cols`. */
  function Corners(cols: Table, count: nat): (boxes: seq<Box>)
    requires Shaped(cols, Attributes, count)
    ensures |boxes| == count
    ensures forall k :: 0 <= k < count ==>
      boxes[k] == CornerBox(cols[CxRow][k], cols[CyRow][k], cols[WidthRow][k], cols[HeightRow][k])
  {
    seq(count, k requires 0 <= k < count =>
      CornerBox(cols[CxRow][k], cols[CyRow][k], cols[WidthRow][k], cols[HeightRow][k]))
  }

  // ---------------------------------------------------------------------------
  // The pipeline
  // ---------------------------------------------------------------------------

  /** The boxes and scores the handler returns. */
  datatype Detections = Detections(boxes: seq<Box>, scores: seq<real>)

  /** The candidates before suppression: one corner box and one score per kept anchor. */
  datatype CandidateSet = CandidateSet(anchors: seq<nat>, boxes: seq<Box>, scores: seq<real>)

  /**
   * Filter, corner conversion and score pairing (paper-backend.py:63-88).
   * The scores are the raw confidence row: the maximum confidence is never
   * used to rescale them.
   */
  function Candidates(t: Table, threshold: real): (c: CandidateSet)
    requires Shaped(t, Attributes, AnchorCount)
    ensures |c.boxes| == |c.scores| == |c.anchors|
    ensures forall k :: 0 <= k < |c.anchors| ==>
      && c.anchors[k] < AnchorCount
      && t[ConfidenceRow][c.anchors[k]] >= threshold
      && c.boxes[k] == AnchorBox(t, c.anchors[k])
      && c.scores[k] == t[ConfidenceRow][c.anchors[k]]
    ensures forall a, b :: 0 <= a < b < |c.anchors| ==> c.anchors[a] < c.anchors[b]
    ensures forall i :: 0 <= i < AnchorCount && t[ConfidenceRow][i] >= threshold ==> i in c.anchors
  {
    var confidences := t[ConfidenceRow];
    var idx := AtLeast(confidences, threshold);
    var high := Columns(t, idx);
    var boxes := Corners(high, |idx|);
    var scores := Gather(confidences, idx);
    CandidateSet(idx, boxes, scores)
  }

  /**
   * The suppression cutoff at the call: IoU threshold 0.5. Whether an IoU of
   * exactly 0.5 also suppresses is decided inside the library, so the
   * pipeline takes it as a parameter and its properties hold either way.
   */
  function NmsCutoff(inclusive: bool): Nms.Cutoff
  {
    Nms.Cutoff(IouThreshold, inclusive)
  }

  /** Suppression and the final gathers (paper-backend.py:91-93). */
  function PostProcess(t: Table, threshold: real, inclusive: bool): (d: Detections)
    requires Shaped(t, Attributes, AnchorCount)
    ensures |d.boxes| == |d.scores| <= MaxOutputSize
  {
    var c := Candidates(t, threshold);
    var keep := Nms.ApplyNms(c.boxes, c.scores, MaxOutputSize, NmsCutoff(inclusive));
    Detections(Gather(c.boxes, keep), Gather(c.scores, keep))
  }

  /** The anchor each returned detection comes from, in output order. */
  function Sources(t: Table, threshold: real, inclusive: bool): (src: seq<nat>)
    requires Shaped(t, Attributes, AnchorCount)
    ensures |src| == |PostProcess(t, threshold, inclusive).boxes|
    ensures forall k :: 0 <= k < |src| ==> src[k] < AnchorCount
  {
    var c := Candidates(t, threshold);
    var keep := Nms.ApplyNms(c.boxes, c.scores, MaxOutputSize, NmsCutoff(inclusive));
    Gather(c.anchors, keep)
  }

  /**
   * What the handler returns: at most 100 box/score pairs, position k of
   * both coming from the same anchor, which reaches the confidence
   * threshold; the anchors are distinct and listed by descending confidence
   * (ties by anchor index); no returned box overlaps an earlier one too much.
   */
  lemma PostProcessSpec(t: Table, threshold: real, inclusive: bool)
    requires Shaped(t, Attributes, AnchorCount)
    ensures var d, src := PostProcess(t, threshold, inclusive), Sources(t, threshold, inclusive);
      && |d.boxes| == |d.scores| == |src| <= MaxOutputSize
      && (forall k :: 0 <= k < |src| ==>
            && src[k] < AnchorCount
            && t[ConfidenceRow][src[k]] >= threshold
            && d.boxes[k] == AnchorBox(t, src[k])
            && d.scores[k] == t[ConfidenceRow][src[k]])
      && (forall a, b :: 0 <= a < b < |src| ==> Nms.Before(t[ConfidenceRow], src[a], src[b]))
      && (forall a, b :: 0 <= a < b < |src| ==> !Nms.Overlaps(d.boxes[a], d.boxes[b], NmsCutoff(inclusive)))
  {
    PostProcessRanked(t, threshold, inclusive);
    PostProcessApart(t, threshold, inclusive);
  }

  lemma PostProcessRanked(t: Table, threshold: real, inclusive: bool)
    requires Shaped(t, Attributes, AnchorCount)
    ensures var src := Sources(t, threshold, inclusive);
      forall a, b :: 0 <= a < b < |src| ==> Nms.Before(t[ConfidenceRow], src[a], src[b])
  {
    var c := Candidates(t, threshold);
    var keep := Nms.ApplyNms(c.boxes, c.scores, MaxOutputSize, NmsCutoff(inclusive));
    var src := Sources(t, threshold, inclusive);
    forall a, b | 0 <= a < b < |src| ensures Nms.Before(t[ConfidenceRow], src[a], src[b]) {
      assert Nms.Before(c.scores, keep[a], keep[b]);
      if keep[b] < keep[a] {
        assert c.anchors[keep[b]] < c.anchors[keep[a]];
      }
    }
  }

  lemma PostProcessApart(t: Table, threshold: real, inclusive: bool)
    requires Shaped(t, Attributes, AnchorCount)
    ensures var d := PostProcess(t, threshold, inclusive);
      forall a, b :: 0 <= a < b < |d.boxes| ==> !Nms.Overlaps(d.boxes[a], d.boxes[b], NmsCutoff(inclusive))
  {
    var c := Candidates(t, threshold);
    var keep := Nms.ApplyNms(c.boxes, c.scores, MaxOutputSize, NmsCutoff(inclusive));
    var d := PostProcess(t, threshold, inclusive);
    forall a, b | 0 <= a < b < |d.boxes| ensures !Nms.Overlaps(d.boxes[a], d.boxes[b], NmsCutoff(inclusive)) {
      assert !Nms.Overlaps(c.boxes[keep[a]], c.boxes[keep[b]], NmsCutoff(inclusive));
    }
  }

  // ---------------------------------------------------------------------------
  // The pipeline seen from the anchors
  // ---------------------------------------------------------------------------

  /** The corner box of every anchor, by anchor index. */
  function AnchorBoxes(t: Table): (boxes: seq<Box>)
    requires Shaped(t, Attributes, AnchorCount)
    ensures |boxes| == AnchorCount
    ensures forall i :: 0 <= i < AnchorCount ==> boxes[i] == AnchorBox(t, i)
  {
    seq(AnchorCount, i requires 0 <= i < AnchorCount => AnchorBox(t, i))
  }

  /** Position k of `boxes` is the box `all[labels[k]]`. */
  predicate Labelled(boxes: seq<Box>, labels: seq<nat>, all: seq<Box>)
  {
    |labels| == |boxes| && forall k :: 0 <= k < |boxes| ==> labels[k] < |all| && all[labels[k]] == boxes[k]
  }

  /** Suppressing positions and then reading their labels is suppressing the labels themselves. */
  lemma {:induction false} SuppressRelabel(cands: seq<nat>, best: Box, boxes: seq<Box>, labels: seq<nat>, all: seq<Box>, cutoff: Nms.Cutoff)
    requires Labelled(boxes, labels, all) && Nms.Indexes(cands, |boxes|)
    ensures Nms.Indexes(Gather(labels, cands), |all|)
    ensures Gather(labels, Nms.Suppress(cands, best, boxes, cutoff)) == Nms.Suppress(Gather(labels, cands), best, all, cutoff)
  {
    if cands != [] {
      var g := Gather(labels, cands);
      assert g[1..] == Gather(labels, cands[1..]);
      SuppressRelabel(cands[1..], best, boxes, labels, all, cutoff);
      GatherCons(labels, cands[0], Nms.Suppress(cands[1..], best, boxes, cutoff));
    }
  }

  /** Greedy suppression commutes with labelling the candidate positions. */
  lemma {:induction false} GreedyRelabel(cands: seq<nat>, boxes: seq<Box>, labels: seq<nat>, all: seq<Box>, maxOutputSize: nat, cutoff: Nms.Cutoff)
    requires Labelled(boxes, labels, all) && Nms.Indexes(cands, |boxes|)
    ensures Nms.Indexes(Gather(labels, cands), |all|)
    ensures Gather(labels, Nms.Greedy(cands, boxes, maxOutputSize, cutoff)) == Nms.Greedy(Gather(labels, cands), all, maxOutputSize, cutoff)
    decreases |cands|
  {
    if cands != [] && maxOutputSize != 0 {
      var best := cands[0];
      var rest := Nms.Suppress(cands[1..], boxes[best], boxes, cutoff);
      var g := Gather(labels, cands);
      assert g[1..] == Gather(labels, cands[1..]);
      SuppressRelabel(cands[1..], boxes[best], boxes, labels, all, cutoff);
      GreedyRelabel(rest, boxes, labels, all, maxOutputSize - 1, cutoff);
      var more := Nms.Greedy(rest, boxes, maxOutputSize - 1, cutoff);
      Nms.GreedyUnfold(cands, boxes, maxOutputSize, cutoff);
      Nms.GreedyUnfold(g, all, maxOutputSize, cutoff);
      GatherCons(labels, best, more);
    }
  }

  /**
   * The anchors reaching the confidence threshold, in the order suppression
   * visits them: by descending confidence, ties going to the lower anchor.
   */
  function AnchorRanking(t: Table, threshold: real): (order: seq<nat>)
    requires Shaped(t, Attributes, AnchorCount)
    ensures Nms.Ranked(t[ConfidenceRow], order)
    ensures forall i: int :: i in order <==> 0 <= i < AnchorCount && t[ConfidenceRow][i] >= threshold
  {
    var c := Candidates(t, threshold);
    var sorted := Nms.SortByScore(c.scores);
    RankingRanked(t, threshold, c, sorted);
    RankingMembers(t, threshold, c, sorted);
    Gather(c.anchors, sorted)
  }

  lemma RankingRanked(t: Table, threshold: real, c: CandidateSet, sorted: seq<nat>)
    requires Shaped(t, Attributes, AnchorCount) && c == Candidates(t, threshold)
    requires Nms.Ranked(c.scores, sorted)
    ensures Nms.Ranked(t[ConfidenceRow], Gather(c.anchors, sorted))
  {
    var order := Gather(c.anchors, sorted);
    forall a, b | 0 <= a < b < |order| ensures Nms.Before(t[ConfidenceRow], order[a], order[b]) {
      assert Nms.Before(c.scores, sorted[a], sorted[b]);
      if sorted[b] < sorted[a] {
        assert c.anchors[sorted[b]] < c.anchors[sorted[a]];
      }
    }
  }

  lemma RankingMembers(t: Table, threshold: real, c: CandidateSet, sorted: seq<nat>)
    requires Shaped(t, Attributes, AnchorCount) && c == Candidates(t, threshold)
    requires Nms.Indexes(sorted, |c.scores|) && forall x: int :: x in sorted <==> 0 <= x < |c.scores|
    ensures forall i: int :: i in Gather(c.anchors, sorted) <==> 0 <= i < AnchorCount && t[ConfidenceRow][i] >= threshold
  {
    var order := Gather(c.anchors, sorted);
    forall i: int | 0 <= i < AnchorCount && t[ConfidenceRow][i] >= threshold ensures i in order {
      var j :| 0 <= j < |c.anchors| && c.anchors[j] == i;
      assert j in sorted;
      var k :| 0 <= k < |sorted| && sorted[k] == j;
      assert order[k] == i;
    }
  }

  /**
   * The anchors the handler returns are what greedy suppression keeps when
   * it runs over the confident anchors themselves, ranked by confidence,
   * with each anchor's own box.
   */
  lemma SourcesRanking(t: Table, threshold: real, inclusive: bool)
    requires Shaped(t, Attributes, AnchorCount)
    ensures Sources(t, threshold, inclusive) == Nms.Greedy(AnchorRanking(t, threshold), AnchorBoxes(t), MaxOutputSize, NmsCutoff(inclusive))
  {
    var c := Candidates(t, threshold);
    GreedyRelabel(Nms.SortByScore(c.scores), c.boxes, c.anchors, AnchorBoxes(t), MaxOutputSize, NmsCutoff(inclusive));
  }

  /**
   * Raising the confidence threshold returns a prefix of what the lower
   * threshold returns: never more detections, and the same ones first.
   */
  lemma SourcesMonotone(t: Table, low: real, high: real, inclusive: bool)
    requires Shaped(t, Attributes, AnchorCount) && low <= high
    ensures var few, many := Sources(t, high, inclusive), Sources(t, low, inclusive);
      |few| <= |many| && few == many[..|few|]
  {
    var all, top := AnchorRanking(t, low), AnchorRanking(t, high);
    Nms.RankedAbove(t[ConfidenceRow], all, top, high);
    SourcesRanking(t, low, inclusive);
    SourcesRanking(t, high, inclusive);
    Nms.GreedyPrefix(all, |top|, AnchorBoxes(t), MaxOutputSize, NmsCutoff(inclusive));
  }

  lemma PostProcessMonotone(t: Table, low: real, high: real, inclusive: bool)
    requires Shaped(t, Attributes, AnchorCount) && low <= high
    ensures var few, many := PostProcess(t, high, inclusive), PostProcess(t, low, inclusive);
      && |few.boxes| <= |many.boxes|
      && few.boxes == many.boxes[..|few.boxes|]
      && few.scores == many.scores[..|few.scores|]
  {
    SourcesMonotone(t, low, high, inclusive);
    SourceBoxes(t, low, inclusive);
    SourceBoxes(t, high, inclusive);
    DetectionsPrefix(t, PostProcess(t, high, inclusive), PostProcess(t, low, inclusive), Sources(t, high, inclusive), Sources(t, low, inclusive));
  }

  /** Detections read off a prefix of the anchors are a prefix of the detections. */
  lemma DetectionsPrefix(t: Table, few: Detections, many: Detections, s: seq<nat>, S: seq<nat>)
    requires Shaped(t, Attributes, AnchorCount)
    requires |few.boxes| == |few.scores| == |s| && |many.boxes| == |many.scores| == |S|
    requires forall k :: 0 <= k < |s| ==> s[k] < AnchorCount && few.boxes[k] == AnchorBoxes(t)[s[k]] && few.scores[k] == t[ConfidenceRow][s[k]]
    requires forall k :: 0 <= k < |S| ==> S[k] < AnchorCount && many.boxes[k] == AnchorBoxes(t)[S[k]] && many.scores[k] == t[ConfidenceRow][S[k]]
    requires |s| <= |S| && s == S[..|s|]
    ensures |few.boxes| <= |many.boxes| && few.boxes == many.boxes[..|few.boxes|] && few.scores == many.scores[..|few.scores|]
  {
    forall k | 0 <= k < |s| ensures few.boxes[k] == many.boxes[k] && few.scores[k] == many.scores[k] {
      assert s[k] == S[k];
    }
  }

  /**
   * The handler leaves a confident anchor out only for a reason: unless
   * 100 detections are returned, a returned anchor ranked ahead of it
   * overlaps it too much.
   */
  lemma PostProcessMaximal(t: Table, threshold: real, inclusive: bool, i: nat)
    requires Shaped(t, Attributes, AnchorCount)
    ensures var d, src := PostProcess(t, threshold, inclusive), Sources(t, threshold, inclusive);
      i < AnchorCount && t[ConfidenceRow][i] >= threshold && i !in src && |src| < MaxOutputSize ==>
        exists a :: 0 <= a < |src| && Nms.Before(t[ConfidenceRow], src[a], i)
          && Nms.Overlaps(d.boxes[a], AnchorBox(t, i), NmsCutoff(inclusive))
  {
    var d, src := PostProcess(t, threshold, inclusive), Sources(t, threshold, inclusive);
    if i < AnchorCount && t[ConfidenceRow][i] >= threshold && i !in src && |src| < MaxOutputSize {
      var boxes := AnchorBoxes(t);
      SourcesRanking(t, threshold, inclusive);
      Nms.GreedyMaximal(t[ConfidenceRow], AnchorRanking(t, threshold), boxes, MaxOutputSize, NmsCutoff(inclusive), i);
      SourceBoxes(t, threshold, inclusive);
      SuppressedByReturned(t[ConfidenceRow], src, boxes, d.boxes, i, NmsCutoff(inclusive));
    }
  }

  /** Returned box and score k are the box and confidence of returned anchor k. */
  lemma SourceBoxes(t: Table, threshold: real, inclusive: bool)
    requires Shaped(t, Attributes, AnchorCount)
    ensures var d, src := PostProcess(t, threshold, inclusive), Sources(t, threshold, inclusive);
      && |d.boxes| == |d.scores| == |src|
      && forall k :: 0 <= k < |src| ==> d.boxes[k] == AnchorBoxes(t)[src[k]] && d.scores[k] == t[ConfidenceRow][src[k]]
  {
  }

  lemma SuppressedByReturned(confidences: seq<real>, src: seq<nat>, boxes: seq<Box>, returned: seq<Box>, i: nat, cutoff: Nms.Cutoff)
    requires |boxes| == |confidences| && i < |boxes| && Nms.Indexes(src, |boxes|)
    requires Nms.SuppressedBy(src, i, boxes, confidences, cutoff)
    requires |returned| == |src| && forall k :: 0 <= k < |src| ==> returned[k] == boxes[src[k]]
    ensures exists a :: 0 <= a < |src| && Nms.Before(confidences, src[a], i) && Nms.Overlaps(returned[a], boxes[i], cutoff)
  {
    var a :| 0 <= a < |src| && Nms.Before(confidences, src[a], i) && Nms.Overlaps(boxes[src[a]], boxes[i], cutoff);
    assert returned[a] == boxes[src[a]];
  }

  /**
   * The handler's pipeline from the detector's flat output: None when the
   * output does not hold 5 * 8400 values (the reshape raises).
   */
  function Predict(output: seq<real>, inclusive: bool): (r: Option<Detections>)
    ensures r.Some? <==> |output| == Attributes * AnchorCount
    ensures r.Some? ==> |r.value.boxes| == |r.value.scores| <= MaxOutputSize
  {
    match Reshape(output, Attributes, AnchorCount)
    case None => None
    case Some(t) =>
      PostProcessSpec(t, ConfidenceThreshold, inclusive);
      Some(PostProcess(t, ConfidenceThreshold, inclusive))
  }

  // ---------------------------------------------------------------------------
  // Consequences
  // ---------------------------------------------------------------------------

  /** With no anchor reaching the confidence threshold, the handler returns no detections, not an error. */
  lemma NoConfidentAnchor(t: Table, threshold: real, inclusive: bool)
    requires Shaped(t, Attributes, AnchorCount)
    requires forall i :: 0 <= i < AnchorCount ==> t[ConfidenceRow][i] < threshold
    ensures PostProcess(t, threshold, inclusive) == Detections([], [])
  {
  }

  /**
   * Suppressing the returned detections once more keeps every one of them,
   * in their order: suppression is idempotent.
   */
  lemma PostProcessIdempotent(t: Table, threshold: real, inclusive: bool)
    requires Shaped(t, Attributes, AnchorCount)
    ensures var d := PostProcess(t, threshold, inclusive);
      Nms.ApplyNms(d.boxes, d.scores, MaxOutputSize, NmsCutoff(inclusive)) == Nms.Identity(|d.boxes|)
  {
    PostProcessSpec(t, threshold, inclusive);
    var d, src := PostProcess(t, threshold, inclusive), Sources(t, threshold, inclusive);
    forall a, b | 0 <= a < b < |d.scores| ensures d.scores[a] >= d.scores[b] {
      assert Nms.Before(t[ConfidenceRow], src[a], src[b]);
    }
    Nms.ApplyNmsFixedPoint(d.boxes, d.scores, MaxOutputSize, NmsCutoff(inclusive));
  }

  /** An anchor of zero width or height gives a box that neither suppresses nor is suppressed by any box. */
  lemma ZeroSizeAnchor(t: Table, i: nat, inclusive: bool)
    requires Shaped(t, Attributes, AnchorCount) && i < AnchorCount
    requires t[WidthRow][i] == 0.0 || t[HeightRow][i] == 0.0
    ensures forall b :: !Nms.Overlaps(AnchorBox(t, i), b, NmsCutoff(inclusive)) && !Nms.Overlaps(b, AnchorBox(t, i), NmsCutoff(inclusive))
  {
    var a := AnchorBox(t, i);
    assert Area(a) == 0.0;
    forall b ensures !Nms.Overlaps(a, b, NmsCutoff(inclusive)) && !Nms.Overlaps(b, a, NmsCutoff(inclusive)) {
      Nms.ZeroAreaNeverOverlaps(a, b, NmsCutoff(inclusive));
    }
  }
}
