/**
 * A reference greedy non-maximum suppression, standing in for the library
 * call behind `apply_nms` (paper-backend.py:11-15): rank the candidates by
 * score, take the best remaining one, drop every remaining candidate that
 * overlaps it too much, and stop once the cap is reached. The result is the
 * list of kept box indices, best first.
 */
module Nms {
  import opened Geometry

  /** Candidate i ranks ahead of candidate j: higher score, ties going to the lower index. */
  predicate Before(scores: seq<real>, i: nat, j: nat)
    requires i < |scores| && j < |scores|
  {
    scores[i] > scores[j] || (scores[i] == scores[j] && i < j)
  }

  /** Every entry of `order` indexes `scores`. */
  predicate Indexes(order: seq<nat>, n: nat)
  {
    forall k :: 0 <= k < |order| ==> order[k] < n
  }

  /** `order` lists indices of `scores`, strictly best first (so without repetition). */
  predicate Ranked(scores: seq<real>, order: seq<nat>)
  {
    && Indexes(order, |scores|)
    && forall a, b :: 0 <= a < b < |order| ==> Before(scores, order[a], order[b])
  }

  lemma RankedDistinct(scores: seq<real>, order: seq<nat>)
    requires Ranked(scores, order)
    ensures forall a, b :: 0 <= a < b < |order| ==> order[a] != order[b]
    ensures forall a, b :: 0 <= a < b < |order| ==> scores[order[a]] >= scores[order[b]]
  {
    forall a, b | 0 <= a < b < |order|
      ensures order[a] != order[b] && scores[order[a]] >= scores[order[b]]
    {
      assert Before(scores, order[a], order[b]);
    }
  }

  lemma RankedTail(scores: seq<real>, order: seq<nat>)
    requires Ranked(scores, order) && order != []
    ensures Ranked(scores, order[1..])
    ensures forall x :: x in order[1..] ==> Before(scores, order[0], x)
  {
    var tail := order[1..];
    forall a, b | 0 <= a < b < |tail| ensures Before(scores, tail[a], tail[b]) {
      assert Before(scores, order[a + 1], order[b + 1]);
    }
    forall x | x in tail ensures Before(scores, order[0], x) {
      var j :| 0 <= j < |tail| && tail[j] == x;
      assert Before(scores, order[0], order[j + 1]);
    }
  }

  lemma RankedCons(scores: seq<real>, x: nat, order: seq<nat>)
    requires x < |scores| && Ranked(scores, order)
    requires forall y :: y in order ==> Before(scores, x, y)
    ensures Ranked(scores, [x] + order)
  {
    var r := [x] + order;
    forall a, b | 0 <= a < b < |r| ensures Before(scores, r[a], r[b]) {
      assert r[b] == order[b - 1];
      if a > 0 {
        assert r[a] == order[a - 1];
      }
    }
  }

  /**
   * Inserts candidate i, whose index exceeds every index already ranked,
   * behind every candidate scoring at least as much.
   */
  function Insert(scores: seq<real>, order: seq<nat>, i: nat): (r: seq<nat>)
    requires i < |scores| && Ranked(scores, order)
    requires forall k :: 0 <= k < |order| ==> order[k] < i
    ensures Ranked(scores, r)
    ensures |r| == |order| + 1
    ensures forall x :: x in r <==> x == i || x in order
  {
    if order == [] then [i]
    else if scores[order[0]] >= scores[i] then
      RankedTail(scores, order);
      var rest := Insert(scores, order[1..], i);
      RankedCons(scores, order[0], rest);
      [order[0]] + rest
    else
      assert forall y :: y in order ==> Before(scores, i, y) by {
        RankedTail(scores, order);
      }
      RankedCons(scores, i, order);
      [i] + order
  }

  /** The first n candidates, ranked best first. */
  function SortFirst(scores: seq<real>, n: nat): (r: seq<nat>)
    requires n <= |scores|
    ensures Ranked(scores, r) && |r| == n
    ensures forall x: int :: x in r <==> 0 <= x < n
  {
    if n == 0 then []
    else
      var prev := SortFirst(scores, n - 1);
      assert forall k :: 0 <= k < |prev| ==> prev[k] < n - 1 by {
        forall k | 0 <= k < |prev| ensures prev[k] < n - 1 {
          assert prev[k] in prev;
        }
      }
      Insert(scores, prev, n - 1)
  }

  /** All candidates, ranked best first (a stable sort by descending score). */
  function SortByScore(scores: seq<real>): (r: seq<nat>)
    ensures Ranked(scores, r) && |r| == |scores|
    ensures forall x: int :: x in r <==> 0 <= x < |scores|
  {
    SortFirst(scores, |scores|)
  }

  /**
   * When a box overlaps a selected box too much: IoU above `threshold`, or
   * also exactly at it when `inclusive`. Which of the two the library does
   * is not visible, so every property is proved for both.
   */
  datatype Cutoff = Cutoff(threshold: real, inclusive: bool)

  /** Box b overlaps the selected box too much to be kept beside it. */
  function Overlaps(selected: Box, b: Box, cutoff: Cutoff): (r: bool)
    ensures r ==> IoU(selected, b) >= cutoff.threshold
    ensures IoU(selected, b) > cutoff.threshold ==> r
  {
    if cutoff.inclusive then IoU(selected, b) >= cutoff.threshold else IoU(selected, b) > cutoff.threshold
  }

  /** The candidates, in their order, that do not overlap `best` too much. */
  function Suppress(cands: seq<nat>, best: Box, boxes: seq<Box>, cutoff: Cutoff): (r: seq<nat>)
    requires Indexes(cands, |boxes|)
    ensures |r| <= |cands| && Indexes(r, |boxes|)
  {
    if cands == [] then []
    else
      var rest := Suppress(cands[1..], best, boxes, cutoff);
      if Overlaps(best, boxes[cands[0]], cutoff) then rest else [cands[0]] + rest
  }

  /** Suppress keeps exactly the candidates that do not overlap `best` too much. */
  lemma {:induction false} SuppressMembers(cands: seq<nat>, best: Box, boxes: seq<Box>, cutoff: Cutoff)
    requires Indexes(cands, |boxes|)
    ensures forall x :: x in Suppress(cands, best, boxes, cutoff) <==>
      x in cands && x < |boxes| && !Overlaps(best, boxes[x], cutoff)
  {
    if cands != [] {
      SuppressMembers(cands[1..], best, boxes, cutoff);
      assert cands == [cands[0]] + cands[1..];
    }
  }

  /**
   * Greedy suppression over candidates listed best first: keep the head,
   * drop what it overlaps, repeat until no candidate is left or
   * `maxOutputSize` boxes are kept.
   */
  function Greedy(cands: seq<nat>, boxes: seq<Box>, maxOutputSize: nat, cutoff: Cutoff): (kept: seq<nat>)
    requires Indexes(cands, |boxes|)
    ensures |kept| <= maxOutputSize && |kept| <= |cands|
    ensures Indexes(kept, |boxes|)
    ensures forall x :: x in kept ==> x in cands
    decreases |cands|
  {
    if cands == [] || maxOutputSize == 0 then []
    else
      var best := cands[0];
      var rest := Suppress(cands[1..], boxes[best], boxes, cutoff);
      SuppressMembers(cands[1..], boxes[best], boxes, cutoff);
      [best] + Greedy(rest, boxes, maxOutputSize - 1, cutoff)
  }

  /**
   * The indices of the kept boxes, best first: what `apply_nms` returns
   * for `boxes` and `scores` of equal length.
   */
  function ApplyNms(boxes: seq<Box>, scores: seq<real>, maxOutputSize: nat, cutoff: Cutoff): (kept: seq<nat>)
    requires |boxes| == |scores|
    ensures |kept| <= maxOutputSize && |kept| <= |boxes|
    ensures Ranked(scores, kept)
    ensures Apart(kept, boxes, cutoff)
  {
    var order := SortByScore(scores);
    GreedyRanked(scores, order, boxes, maxOutputSize, cutoff);
    GreedyApart(order, boxes, maxOutputSize, cutoff);
    Greedy(order, boxes, maxOutputSize, cutoff)
  }

  lemma {:induction false} SuppressRanked(scores: seq<real>, cands: seq<nat>, best: Box, boxes: seq<Box>, cutoff: Cutoff)
    requires |boxes| == |scores| && Ranked(scores, cands)
    ensures Ranked(scores, Suppress(cands, best, boxes, cutoff))
  {
    if cands != [] {
      RankedTail(scores, cands);
      SuppressRanked(scores, cands[1..], best, boxes, cutoff);
      var rest := Suppress(cands[1..], best, boxes, cutoff);
      SuppressMembers(cands[1..], best, boxes, cutoff);
      if !Overlaps(best, boxes[cands[0]], cutoff) {
        RankedCons(scores, cands[0], rest);
      }
    }
  }

  lemma {:induction false} GreedyRanked(scores: seq<real>, cands: seq<nat>, boxes: seq<Box>, maxOutputSize: nat, cutoff: Cutoff)
    requires |boxes| == |scores| && Ranked(scores, cands)
    ensures Ranked(scores, Greedy(cands, boxes, maxOutputSize, cutoff))
    decreases |cands|
  {
    if cands != [] && maxOutputSize != 0 {
      RankedTail(scores, cands);
      var rest := Suppress(cands[1..], boxes[cands[0]], boxes, cutoff);
      SuppressRanked(scores, cands[1..], boxes[cands[0]], boxes, cutoff);
      SuppressMembers(cands[1..], boxes[cands[0]], boxes, cutoff);
      GreedyRanked(scores, rest, boxes, maxOutputSize - 1, cutoff);
      var more := Greedy(rest, boxes, maxOutputSize - 1, cutoff);
      RankedCons(scores, cands[0], more);
    }
  }

  /** No box listed in `kept` overlaps a box listed before it. */
  predicate Apart(kept: seq<nat>, boxes: seq<Box>, cutoff: Cutoff)
    requires Indexes(kept, |boxes|)
  {
    forall a, b :: 0 <= a < b < |kept| ==> !Overlaps(boxes[kept[a]], boxes[kept[b]], cutoff)
  }

  lemma {:induction false} GreedyApart(cands: seq<nat>, boxes: seq<Box>, maxOutputSize: nat, cutoff: Cutoff)
    requires Indexes(cands, |boxes|)
    ensures Apart(Greedy(cands, boxes, maxOutputSize, cutoff), boxes, cutoff)
    decreases |cands|
  {
    if cands != [] && maxOutputSize != 0 {
      var best := cands[0];
      var rest := Suppress(cands[1..], boxes[best], boxes, cutoff);
      GreedyApart(rest, boxes, maxOutputSize - 1, cutoff);
      var more := Greedy(rest, boxes, maxOutputSize - 1, cutoff);
      KeptSpared(cands[1..], best, boxes, maxOutputSize - 1, cutoff, more);
      ApartCons(best, more, boxes, cutoff);
    }
  }

  /** No box kept after suppressing around `best` overlaps `best` too much. */
  lemma KeptSpared(cands: seq<nat>, best: nat, boxes: seq<Box>, maxOutputSize: nat, cutoff: Cutoff, more: seq<nat>)
    requires Indexes(cands, |boxes|) && best < |boxes|
    requires more == Greedy(Suppress(cands, boxes[best], boxes, cutoff), boxes, maxOutputSize, cutoff)
    ensures forall b :: 0 <= b < |more| ==> !Overlaps(boxes[best], boxes[more[b]], cutoff)
  {
    SuppressMembers(cands, boxes[best], boxes, cutoff);
    forall b | 0 <= b < |more| ensures !Overlaps(boxes[best], boxes[more[b]], cutoff) {
      assert more[b] in more;
    }
  }

  lemma ApartCons(best: nat, more: seq<nat>, boxes: seq<Box>, cutoff: Cutoff)
    requires best < |boxes| && Indexes(more, |boxes|) && Apart(more, boxes, cutoff)
    requires forall b :: 0 <= b < |more| ==> !Overlaps(boxes[best], boxes[more[b]], cutoff)
    ensures Indexes([best] + more, |boxes|) && Apart([best] + more, boxes, cutoff)
  {
    var kept := [best] + more;
    assert forall b :: 0 < b < |kept| ==> kept[b] == more[b - 1];
  }

  // ---------------------------------------------------------------------------
  // Further properties of the reference suppression
  // ---------------------------------------------------------------------------

  /** Some box listed in `kept` ranks ahead of box c and overlaps it too much. */
  predicate SuppressedBy(kept: seq<nat>, c: nat, boxes: seq<Box>, scores: seq<real>, cutoff: Cutoff)
    requires Indexes(kept, |boxes|) && c < |boxes| && |boxes| == |scores|
  {
    exists a :: 0 <= a < |kept| && Before(scores, kept[a], c) && Overlaps(boxes[kept[a]], boxes[c], cutoff)
  }

  /**
   * Greedy drops a candidate only for a reason: unless the cap was reached,
   * every candidate of a ranked list that is left out overlaps too much a
   * kept box that ranks ahead of it.
   */
  lemma {:induction false} GreedyMaximal(scores: seq<real>, cands: seq<nat>, boxes: seq<Box>, maxOutputSize: nat, cutoff: Cutoff, c: nat)
    requires |boxes| == |scores| && Ranked(scores, cands) && c in cands
    ensures var kept := Greedy(cands, boxes, maxOutputSize, cutoff);
      c !in kept && |kept| < maxOutputSize ==> SuppressedBy(kept, c, boxes, scores, cutoff)
    decreases |cands|
  {
    var kept := Greedy(cands, boxes, maxOutputSize, cutoff);
    if c !in kept && |kept| < maxOutputSize {
      var best := cands[0];
      var rest := Suppress(cands[1..], boxes[best], boxes, cutoff);
      var more := Greedy(rest, boxes, maxOutputSize - 1, cutoff);
      assert kept == [best] + more;
      RankedTail(scores, cands);
      InTail(cands, c);
      if Overlaps(boxes[best], boxes[c], cutoff) {
        SuppressedByHead(best, more, c, boxes, scores, cutoff);
      } else {
        assert c in rest by {
          SuppressMembers(cands[1..], boxes[best], boxes, cutoff);
        }
        assert c !in more;
        SuppressRanked(scores, cands[1..], boxes[best], boxes, cutoff);
        GreedyMaximal(scores, rest, boxes, maxOutputSize - 1, cutoff, c);
        SuppressedByTail(best, more, c, boxes, scores, cutoff);
      }
    }
  }

  lemma InTail(s: seq<nat>, c: nat)
    requires c in s && c != s[0]
    ensures c in s[1..]
  {
    var j :| 0 <= j < |s| && s[j] == c;
    assert s[1..][j - 1] == c;
  }

  lemma SuppressedByHead(best: nat, more: seq<nat>, c: nat, boxes: seq<Box>, scores: seq<real>, cutoff: Cutoff)
    requires best < |boxes| && c < |boxes| && |boxes| == |scores| && Indexes(more, |boxes|)
    requires Before(scores, best, c) && Overlaps(boxes[best], boxes[c], cutoff)
    ensures Indexes([best] + more, |boxes|) && SuppressedBy([best] + more, c, boxes, scores, cutoff)
  {
    assert ([best] + more)[0] == best;
  }

  lemma SuppressedByTail(best: nat, more: seq<nat>, c: nat, boxes: seq<Box>, scores: seq<real>, cutoff: Cutoff)
    requires best < |boxes| && c < |boxes| && |boxes| == |scores| && Indexes(more, |boxes|)
    requires SuppressedBy(more, c, boxes, scores, cutoff)
    ensures Indexes([best] + more, |boxes|) && SuppressedBy([best] + more, c, boxes, scores, cutoff)
  {
    var a :| 0 <= a < |more| && Before(scores, more[a], c) && Overlaps(boxes[more[a]], boxes[c], cutoff);
    assert ([best] + more)[a + 1] == more[a];
  }

  /**
   * Every box `apply_nms` leaves out, while fewer than `maxOutputSize` are
   * kept, overlaps too much a kept box that ranks ahead of it.
   */
  lemma ApplyNmsMaximal(boxes: seq<Box>, scores: seq<real>, maxOutputSize: nat, cutoff: Cutoff, i: nat)
    requires |boxes| == |scores| && i < |boxes|
    ensures var kept := ApplyNms(boxes, scores, maxOutputSize, cutoff);
      i !in kept && |kept| < maxOutputSize ==> SuppressedBy(kept, i, boxes, scores, cutoff)
  {
    GreedyMaximal(scores, SortByScore(scores), boxes, maxOutputSize, cutoff, i);
  }

  /** Which pairs of boxes overlap too much: entry [i][j] says whether box j overlaps box i. */
  function OverlapMatrix(boxes: seq<Box>, cutoff: Cutoff): seq<seq<bool>>
  {
    seq(|boxes|, i requires 0 <= i < |boxes| =>
      seq(|boxes|, j requires 0 <= j < |boxes| => Overlaps(boxes[i], boxes[j], cutoff)))
  }

  /** Two box lists of the same length in which the same pairs of positions overlap too much. */
  predicate SameOverlaps(boxes: seq<Box>, others: seq<Box>, cutoff: Cutoff)
  {
    |boxes| == |others| && OverlapMatrix(boxes, cutoff) == OverlapMatrix(others, cutoff)
  }

  lemma {:induction false} SuppressCongruent(cands: seq<nat>, best: nat, boxes: seq<Box>, others: seq<Box>, cutoff: Cutoff)
    requires Indexes(cands, |boxes|) && best < |boxes| && SameOverlaps(boxes, others, cutoff)
    ensures Suppress(cands, others[best], others, cutoff) == Suppress(cands, boxes[best], boxes, cutoff)
  {
    if cands != [] {
      SuppressCongruent(cands[1..], best, boxes, others, cutoff);
      assert OverlapMatrix(boxes, cutoff)[best][cands[0]] == OverlapMatrix(others, cutoff)[best][cands[0]];
    }
  }

  lemma {:induction false} GreedyCongruent(cands: seq<nat>, boxes: seq<Box>, others: seq<Box>, maxOutputSize: nat, cutoff: Cutoff)
    requires Indexes(cands, |boxes|) && SameOverlaps(boxes, others, cutoff)
    ensures Greedy(cands, others, maxOutputSize, cutoff) == Greedy(cands, boxes, maxOutputSize, cutoff)
    decreases |cands|
  {
    if cands != [] && maxOutputSize != 0 {
      var best := cands[0];
      var rest := Suppress(cands[1..], boxes[best], boxes, cutoff);
      SuppressCongruent(cands[1..], best, boxes, others, cutoff);
      GreedyCongruent(rest, boxes, others, maxOutputSize - 1, cutoff);
    }
  }

  /**
   * Handing every box over with its x and y roles exchanged selects the
   * same boxes: the order of the coordinates within a box does not matter
   * as long as all boxes use the same one.
   */
  lemma ApplyNmsSwapAxes(boxes: seq<Box>, scores: seq<real>, maxOutputSize: nat, cutoff: Cutoff)
    requires |boxes| == |scores|
    ensures ApplyNms(SwapAxesAll(boxes), scores, maxOutputSize, cutoff) == ApplyNms(boxes, scores, maxOutputSize, cutoff)
  {
    var swapped := SwapAxesAll(boxes);
    var m, n := OverlapMatrix(boxes, cutoff), OverlapMatrix(swapped, cutoff);
    forall i | 0 <= i < |boxes| ensures m[i] == n[i] {
      forall j | 0 <= j < |boxes| ensures m[i][j] == n[i][j] {
        SwapAxesIoU(boxes[i], boxes[j]);
      }
    }
    assert m == n;
    GreedyCongruent(SortByScore(scores), boxes, swapped, maxOutputSize, cutoff);
  }

  // ---------------------------------------------------------------------------
  // Boxes that do not overlap
  // ---------------------------------------------------------------------------

  /** The first `maxOutputSize` entries of `order`, or all of them if there are fewer. */
  function Capped(order: seq<nat>, maxOutputSize: nat): seq<nat>
  {
    if maxOutputSize < |order| then order[..maxOutputSize] else order
  }

  lemma CappedCons(order: seq<nat>, maxOutputSize: nat)
    requires order != [] && maxOutputSize != 0
    ensures Capped(order, maxOutputSize) == [order[0]] + Capped(order[1..], maxOutputSize - 1)
  {
  }

  lemma {:induction false} SuppressNothing(cands: seq<nat>, best: Box, boxes: seq<Box>, cutoff: Cutoff)
    requires Indexes(cands, |boxes|)
    requires forall k :: 0 <= k < |cands| ==> !Overlaps(best, boxes[cands[k]], cutoff)
    ensures Suppress(cands, best, boxes, cutoff) == cands
  {
    if cands != [] {
      SuppressNothing(cands[1..], best, boxes, cutoff);
    }
  }

  /**
   * Over candidates none of which overlaps a later one too much, greedy
   * suppression keeps the first `maxOutputSize` of them.
   */
  lemma {:induction false} GreedyKeepsApart(cands: seq<nat>, boxes: seq<Box>, maxOutputSize: nat, cutoff: Cutoff)
    requires Indexes(cands, |boxes|) && Apart(cands, boxes, cutoff)
    ensures Greedy(cands, boxes, maxOutputSize, cutoff) == Capped(cands, maxOutputSize)
    decreases |cands|
  {
    if cands != [] && maxOutputSize != 0 {
      var tail := cands[1..];
      ApartTail(cands, boxes, cutoff);
      SuppressNothing(tail, boxes[cands[0]], boxes, cutoff);
      GreedyKeepsApart(tail, boxes, maxOutputSize - 1, cutoff);
      CappedCons(cands, maxOutputSize);
    }
  }

  lemma ApartTail(cands: seq<nat>, boxes: seq<Box>, cutoff: Cutoff)
    requires Indexes(cands, |boxes|) && Apart(cands, boxes, cutoff) && cands != []
    ensures Indexes(cands[1..], |boxes|) && Apart(cands[1..], boxes, cutoff)
    ensures forall k :: 0 <= k < |cands| - 1 ==> !Overlaps(boxes[cands[0]], boxes[cands[1..][k]], cutoff)
  {
    var tail := cands[1..];
    forall k | 0 <= k < |tail| ensures !Overlaps(boxes[cands[0]], boxes[tail[k]], cutoff) {
      assert tail[k] == cands[k + 1];
    }
    forall a, b | 0 <= a < b < |tail| ensures !Overlaps(boxes[tail[a]], boxes[tail[b]], cutoff) {
      assert tail[a] == cands[a + 1] && tail[b] == cands[b + 1];
    }
  }

  /**
   * When no two of the boxes overlap too much, `apply_nms` keeps the
   * `maxOutputSize` best of them, best first: two disjoint boxes both
   * survive in descending score order, and a cap of one keeps the single
   * best box.
   */
  lemma ApplyNmsNoOverlap(boxes: seq<Box>, scores: seq<real>, maxOutputSize: nat, cutoff: Cutoff)
    requires |boxes| == |scores|
    requires forall i, j :: 0 <= i < |boxes| && 0 <= j < |boxes| && i != j ==> !Overlaps(boxes[i], boxes[j], cutoff)
    ensures ApplyNms(boxes, scores, maxOutputSize, cutoff) == Capped(SortByScore(scores), maxOutputSize)
  {
    var order := SortByScore(scores);
    RankedDistinct(scores, order);
    GreedyKeepsApart(order, boxes, maxOutputSize, cutoff);
  }

  /** Two ranked lists of the same candidates, of the same length, are the same list. */
  lemma {:induction false} RankedUnique(scores: seq<real>, p: seq<nat>, q: seq<nat>)
    requires Ranked(scores, p) && Ranked(scores, q) && |p| == |q|
    requires forall x :: x in p <==> x in q
    ensures p == q
    decreases |p|
  {
    if p != [] {
      RankedTail(scores, p);
      RankedTail(scores, q);
      if p[0] != q[0] {
        InTail(q, p[0]);
        InTail(p, q[0]);
        assert false;
      }
      forall x ensures x in p[1..] <==> x in q[1..] {
        if x in p[1..] {
          assert x != p[0] && x in q;
          InTail(q, x);
        }
        if x in q[1..] {
          assert x != q[0] && x in p;
          InTail(p, x);
        }
      }
      RankedUnique(scores, p[1..], q[1..]);
      assert p == [p[0]] + p[1..] && q == [q[0]] + q[1..];
    }
  }

  /** The indices 0, 1, ..., n - 1 in order. */
  function Identity(n: nat): (ids: seq<nat>)
    ensures |ids| == n && forall k :: 0 <= k < n ==> ids[k] == k
  {
    seq(n, k requires 0 <= k < n => k)
  }

  /**
   * Suppression is idempotent: boxes already listed best first, none
   * overlapping a later one too much and no more than the cap, all survive
   * in their order.
   */
  lemma ApplyNmsFixedPoint(boxes: seq<Box>, scores: seq<real>, maxOutputSize: nat, cutoff: Cutoff)
    requires |boxes| == |scores| <= maxOutputSize
    requires forall a, b :: 0 <= a < b < |scores| ==> scores[a] >= scores[b]
    requires forall a, b :: 0 <= a < b < |boxes| ==> !Overlaps(boxes[a], boxes[b], cutoff)
    ensures ApplyNms(boxes, scores, maxOutputSize, cutoff) == Identity(|boxes|)
  {
    var ids := Identity(|boxes|);
    assert Ranked(scores, ids);
    forall x ensures x in ids <==> x in SortByScore(scores) {
      if 0 <= x < |ids| {
        assert ids[x] == x;
      }
    }
    RankedUnique(scores, ids, SortByScore(scores));
    GreedyKeepsApart(ids, boxes, maxOutputSize, cutoff);
  }

  // ---------------------------------------------------------------------------
  // Prefixes of the ranking
  // ---------------------------------------------------------------------------

  lemma First(s: seq<nat>)
    requires s != []
    ensures s[0] in s
  {
  }

  lemma NoMembers(s: seq<nat>)
    requires forall x :: x !in s
    ensures s == []
  {
    if s != [] {
      First(s);
      assert false;
    }
  }

  /**
   * A ranked list of exactly those candidates of the ranked list `order`
   * that score at least `floor` is a prefix of `order`: the candidates
   * reaching a score come before all the others.
   */
  lemma {:induction false} RankedAbove(scores: seq<real>, order: seq<nat>, top: seq<nat>, floor: real)
    requires Ranked(scores, order) && Ranked(scores, top)
    requires forall x :: x in top <==> x in order && x < |scores| && scores[x] >= floor
    ensures |top| <= |order| && top == order[..|top|]
    decreases |order|
  {
    if order == [] {
      NoMembers(top);
    } else {
      var h := order[0];
      RankedTail(scores, order);
      if scores[h] >= floor {
        assert h in order;
        First(top);
        RankedTail(scores, top);
        if top[0] != h {
          InTail(order, top[0]);
          InTail(top, h);
          assert false;
        }
        forall x ensures x in top[1..] <==> x in order[1..] && x < |scores| && scores[x] >= floor {
          if x in top[1..] {
            assert x != h && x in top;
            InTail(order, x);
          }
          if x in order[1..] && x < |scores| && scores[x] >= floor {
            assert x != h && x in top;
            InTail(top, x);
          }
        }
        RankedAbove(scores, order[1..], top[1..], floor);
        assert top == [h] + top[1..];
      } else {
        forall x | x in order ensures scores[x] < floor {
          if x != h {
            InTail(order, x);
          }
        }
        NoMembers(top);
      }
    }
  }

  /** Suppressing a prefix of the candidates keeps a prefix of what suppressing them all keeps. */
  lemma {:induction false} SuppressPrefix(cands: seq<nat>, n: nat, best: Box, boxes: seq<Box>, cutoff: Cutoff)
    requires Indexes(cands, |boxes|) && n <= |cands|
    ensures var p, r := Suppress(cands[..n], best, boxes, cutoff), Suppress(cands, best, boxes, cutoff);
      |p| <= |r| && p == r[..|p|]
    decreases n
  {
    if n > 0 {
      assert cands[..n][0] == cands[0] && cands[..n][1..] == cands[1..][..n - 1];
      SuppressPrefix(cands[1..], n - 1, best, boxes, cutoff);
    }
  }

  /**
   * Greedy suppression over a prefix of the candidates keeps a prefix of
   * what it keeps over all of them: candidates ranked further down never
   * change the fate of those ahead of them.
   */
  lemma {:induction false} GreedyPrefix(cands: seq<nat>, n: nat, boxes: seq<Box>, maxOutputSize: nat, cutoff: Cutoff)
    requires Indexes(cands, |boxes|) && n <= |cands|
    ensures var p, g := Greedy(cands[..n], boxes, maxOutputSize, cutoff), Greedy(cands, boxes, maxOutputSize, cutoff);
      |p| <= |g| && p == g[..|p|]
    decreases |cands|
  {
    if n > 0 && maxOutputSize > 0 {
      var best := cands[0];
      var rest := Suppress(cands[1..], boxes[best], boxes, cutoff);
      var shorter := Suppress(cands[..n][1..], boxes[best], boxes, cutoff);
      SuppressHeadPrefix(cands, n, boxes, cutoff);
      GreedyPrefix(rest, |shorter|, boxes, maxOutputSize - 1, cutoff);
      GreedyPrefixStep(cands, n, boxes, maxOutputSize, cutoff, rest, shorter);
    }
  }

  lemma GreedyPrefixStep(cands: seq<nat>, n: nat, boxes: seq<Box>, maxOutputSize: nat, cutoff: Cutoff, rest: seq<nat>, shorter: seq<nat>)
    requires Indexes(cands, |boxes|) && 0 < n <= |cands| && maxOutputSize > 0
    requires rest == Suppress(cands[1..], boxes[cands[0]], boxes, cutoff)
    requires shorter == Suppress(cands[..n][1..], boxes[cands[0]], boxes, cutoff)
    requires cands[..n][0] == cands[0]
    requires var p, g := Greedy(shorter, boxes, maxOutputSize - 1, cutoff), Greedy(rest, boxes, maxOutputSize - 1, cutoff);
      |p| <= |g| && p == g[..|p|]
    ensures var p, g := Greedy(cands[..n], boxes, maxOutputSize, cutoff), Greedy(cands, boxes, maxOutputSize, cutoff);
      |p| <= |g| && p == g[..|p|]
  {
    GreedyUnfold(cands, boxes, maxOutputSize, cutoff);
    GreedyUnfold(cands[..n], boxes, maxOutputSize, cutoff);
    ConsPrefix(cands[0], Greedy(shorter, boxes, maxOutputSize - 1, cutoff), Greedy(rest, boxes, maxOutputSize - 1, cutoff));
  }

  lemma SuppressHeadPrefix(cands: seq<nat>, n: nat, boxes: seq<Box>, cutoff: Cutoff)
    requires Indexes(cands, |boxes|) && 0 < n <= |cands|
    ensures cands[..n][0] == cands[0]
    ensures var rest, shorter := Suppress(cands[1..], boxes[cands[0]], boxes, cutoff), Suppress(cands[..n][1..], boxes[cands[0]], boxes, cutoff);
      |shorter| <= |rest| && shorter == rest[..|shorter|]
  {
    assert cands[..n][1..] == cands[1..][..n - 1];
    SuppressPrefix(cands[1..], n - 1, boxes[cands[0]], boxes, cutoff);
  }

  lemma GreedyUnfold(cands: seq<nat>, boxes: seq<Box>, maxOutputSize: nat, cutoff: Cutoff)
    requires Indexes(cands, |boxes|) && cands != [] && maxOutputSize > 0
    ensures Greedy(cands, boxes, maxOutputSize, cutoff)
      == [cands[0]] + Greedy(Suppress(cands[1..], boxes[cands[0]], boxes, cutoff), boxes, maxOutputSize - 1, cutoff)
  {
  }

  lemma ConsPrefix(x: nat, p: seq<nat>, g: seq<nat>)
    requires |p| <= |g| && p == g[..|p|]
    ensures [x] + p == ([x] + g)[..|p| + 1]
  {
  }

  // ---------------------------------------------------------------------------
  // Identical and empty boxes
  // ---------------------------------------------------------------------------

  /** Two copies of a box with some area: only the better scoring one is kept. */
  lemma IdenticalBoxesKeepBest(b: Box, first: real, second: real, maxOutputSize: nat, cutoff: Cutoff)
    requires Area(b) > 0.0 && cutoff.threshold < 1.0 && first >= second && maxOutputSize > 0
    ensures ApplyNms([b, b], [first, second], maxOutputSize, cutoff) == [0]
  {
    var scores := [first, second];
    assert SortFirst(scores, 1) == [0];
    assert Insert(scores, [0], 1) == [0] + Insert(scores, [], 1) == [0, 1];
    assert SortByScore(scores) == SortFirst(scores, 2) == [0, 1];
    IoUSelf(b);
    assert Suppress([1], b, [b, b], cutoff) == [];
  }

  /** A box with zero area never overlaps anything too much, nor anything it. */
  lemma ZeroAreaNeverOverlaps(a: Box, b: Box, cutoff: Cutoff)
    requires Area(a) == 0.0
    requires if cutoff.inclusive then cutoff.threshold > 0.0 else cutoff.threshold >= 0.0
    ensures !Overlaps(a, b, cutoff) && !Overlaps(b, a, cutoff)
  {
    ZeroAreaIoU(a, b);
  }
}
