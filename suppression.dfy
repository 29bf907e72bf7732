/** Greedy non-maximum suppression, Localization_Model.non_max_suppression
    in trfk-sign-label/models.py. The candidate indices are sorted by
    ascending score; the highest remaining one is popped and kept, and every
    remaining index whose IOU with it is strictly above the threshold is
    dropped for good. numpy's argsort is not stable, so equal scores may come
    out of the sort in any order: the model allows every such order. */
module Suppression {
  import opened Boxes

  /** Every index is below n. */
  predicate IndicesIn(idx: seq<nat>, n: nat)
  {
    forall k :: 0 <= k < |idx| ==> idx[k] < n
  }

  /** No index occurs twice. */
  predicate Distinct(idx: seq<nat>)
  {
    forall p, q :: 0 <= p < q < |idx| ==> idx[p] != idx[q]
  }

  /** The indices are in order of non-decreasing score. */
  predicate Ascending(idx: seq<nat>, scores: seq<real>)
    requires IndicesIn(idx, |scores|)
  {
    forall p, q :: 0 <= p < q < |idx| ==> scores[idx[p]] <= scores[idx[q]]
  }

  /** What `scores.argsort()` may return: each of 0..n-1 exactly once, by
      non-decreasing score, with equal scores in any order. */
  predicate IsArgsort(order: seq<nat>, scores: seq<real>)
  {
    |order| == |scores| && IndicesIn(order, |scores|) && Distinct(order) &&
    (forall i :: 0 <= i < |scores| ==> i in order) &&
    Ascending(order, scores)
  }

  /** numpy fancy indexing `s[idx]`. */
  function Gather<T>(s: seq<T>, idx: seq<nat>): (r: seq<T>)
    requires IndicesIn(idx, |s|)
    ensures |r| == |idx|
    ensures forall k :: 0 <= k < |idx| ==> r[k] == s[idx[k]]
  {
    seq(|idx|, k requires 0 <= k < |idx| => s[idx[k]])
  }

  /** Which box suppresses which: (i, j) is in the relation when box i
      would remove box j, i.e. their IOU is strictly above the threshold. */
  type Pairs = set<(nat, nat)>

  /** The suppression relation of the boxes at a threshold. It relates
      only indices of boxes, and at a non-negative threshold only boxes
      that really overlap. */
  function SuppressionPairs(boxes: seq<Box>, threshold: real): (rel: Pairs)
    ensures forall i, j :: (i, j) in rel ==> i < |boxes| && j < |boxes|
    ensures threshold >= 0.0 ==>
              forall i, j :: (i, j) in rel && i < |boxes| && j < |boxes| ==> Intersection(boxes[i], boxes[j]) > 0.0
  {
    var rel := set i: nat, j: nat | i < |boxes| && j < |boxes| && Exceeds(Iou(boxes[i], boxes[j]), threshold) :: (i, j);
    assert threshold >= 0.0 ==>
             forall i, j :: (i, j) in rel && i < |boxes| && j < |boxes| ==> Intersection(boxes[i], boxes[j]) > 0.0 by {
      if threshold >= 0.0 {
        forall i: nat, j: nat | (i, j) in rel && i < |boxes| && j < |boxes|
          ensures Intersection(boxes[i], boxes[j]) > 0.0
        {
          OnlyOverlapsExceed(boxes[i], boxes[j], threshold);
        }
      }
    }
    rel
  }

  ghost predicate Symmetric(rel: Pairs)
  {
    forall i, j :: (i, j) in rel ==> (j, i) in rel
  }

  /** The positions in `rest` that the just-kept index `top` suppresses:
      `set((ious > threshold).nonzero()[0])`. */
  function SuppressedPositions(rel: Pairs, top: nat, rest: seq<nat>): set<int>
  {
    set i | 0 <= i < |rest| && (top, rest[i]) in rel
  }

  /** `[v for (i, v) in enumerate(s) if i not in drop]`: the entries at the
      positions outside `drop`, in their original order. */
  function KeepUnfiltered(s: seq<nat>, drop: set<int>): (r: seq<nat>)
    ensures |r| <= |s|
    ensures forall x :: x in r ==> x in s
    ensures forall i :: 0 <= i < |s| && i !in drop ==> s[i] in r
    decreases |s|
  {
    if s == [] then []
    else KeepUnfiltered(s[..|s| - 1], drop) + (if |s| - 1 in drop then [] else [s[|s| - 1]])
  }

  /** Every entry kept comes from a position outside `drop`. */
  lemma {:induction false} KeepUnfilteredOrigin(s: seq<nat>, drop: set<int>, x: nat)
    requires x in KeepUnfiltered(s, drop)
    ensures exists i :: 0 <= i < |s| && i !in drop && s[i] == x
    decreases |s|
  {
    var init := s[..|s| - 1];
    if x in KeepUnfiltered(init, drop) {
      KeepUnfilteredOrigin(init, drop, x);
      var i :| 0 <= i < |init| && i !in drop && init[i] == x;
      assert s[i] == x;
    } else {
      assert s[|s| - 1] == x && |s| - 1 !in drop;
    }
  }

  /** One round of the loop: the entries of `rest` that the just-kept
      index `top` does not suppress, in their original order. */
  function Survivors(rel: Pairs, top: nat, rest: seq<nat>): (r: seq<nat>)
    ensures |r| <= |rest|
    ensures forall x :: x in r ==> x in rest
  {
    KeepUnfiltered(rest, SuppressedPositions(rel, top, rest))
  }

  /** An entry of `rest` survives the round exactly when `top` does not
      suppress it. */
  lemma SurvivorsExact(rel: Pairs, top: nat, rest: seq<nat>)
    ensures forall x :: x in Survivors(rel, top, rest) ==> (top, x) !in rel
    ensures forall i :: 0 <= i < |rest| && (top, rest[i]) !in rel ==> rest[i] in Survivors(rel, top, rest)
  {
    var drop := SuppressedPositions(rel, top, rest);
    forall x | x in Survivors(rel, top, rest) ensures (top, x) !in rel {
      KeepUnfilteredOrigin(rest, drop, x);
    }
  }

  /** The greedy loop on the remaining indices, sorted by ascending score:
      keep the last one, drop what it suppresses, repeat on the rest. */
  function Greedy(rel: Pairs, remaining: seq<nat>): (keep: seq<nat>)
    ensures |keep| <= |remaining|
    ensures forall x :: x in keep ==> x in remaining
    ensures remaining != [] ==> keep != [] && keep[0] == remaining[|remaining| - 1]
    decreases |remaining|
  {
    if remaining == [] then []
    else
      var top := remaining[|remaining| - 1];
      var rest := remaining[..|remaining| - 1];
      var tail := Greedy(rel, Survivors(rel, top, rest));
      assert forall x :: x in tail ==> x in remaining by {
        forall x | x in tail ensures x in remaining {
          var i :| 0 <= i < |rest| && rest[i] == x;
          assert remaining[i] == x;
        }
      }
      [top] + tail
  }

  // ---------------------------------------------------------------------
  // What the result of non_max_suppression satisfies.

  /** Kept scores never increase from one kept index to the next. */
  ghost predicate ScoresNonIncreasing(scores: seq<real>, keep: seq<nat>)
    requires IndicesIn(keep, |scores|)
  {
    forall p, q :: 0 <= p < q < |keep| ==> scores[keep[q]] <= scores[keep[p]]
  }

  /** No kept index suppresses another kept index. */
  ghost predicate PairwiseSeparated(rel: Pairs, keep: seq<nat>)
  {
    forall p, q :: 0 <= p < |keep| && 0 <= q < |keep| && p != q ==> (keep[p], keep[q]) !in rel
  }

  /** Every index left out was suppressed by a kept index scoring at least as high. */
  ghost predicate DropsJustified(rel: Pairs, scores: seq<real>, keep: seq<nat>)
    requires IndicesIn(keep, |scores|)
  {
    forall i :: 0 <= i < |scores| && i !in keep ==>
      exists p :: 0 <= p < |keep| && scores[i] <= scores[keep[p]] && (keep[p], i) in rel
  }

  /** The properties of greedy suppression under any relation. */
  ghost predicate SatisfiesNms(rel: Pairs, scores: seq<real>, keep: seq<nat>)
  {
    IndicesIn(keep, |scores|) && Distinct(keep) && |keep| <= |scores| &&
    (keep != [] <==> |scores| > 0) &&
    (forall i :: 0 <= i < |scores| && keep != [] ==> scores[i] <= scores[keep[0]]) &&
    ScoresNonIncreasing(scores, keep) &&
    PairwiseSeparated(rel, keep) &&
    DropsJustified(rel, scores, keep)
  }

  /** The properties non_max_suppression promises of the indices it returns:
      distinct indices of the input, at most n of them, none iff no input,
      the first with the top score, scores non-increasing, no kept box with
      IOU above the threshold against another kept box, and every dropped
      box suppressed by a kept one scoring at least as high. */
  ghost predicate IsNmsResult(boxes: seq<Box>, scores: seq<real>, threshold: real, keep: seq<nat>)
  {
    |boxes| == |scores| && SatisfiesNms(SuppressionPairs(boxes, threshold), scores, keep)
  }

  // ---------------------------------------------------------------------
  // The method.

  /** non_max_suppression: the indices of the boxes kept, highest score first. */
  method NonMaxSuppression(boxes: seq<Box>, scores: seq<real>, threshold: real) returns (keep: seq<nat>)
    requires |boxes| == |scores|
    ensures IsNmsResult(boxes, scores, threshold, keep)
    ensures exists order :: IsArgsort(order, scores) && keep == Greedy(SuppressionPairs(boxes, threshold), order)
  {
    var areas := seq(|boxes|, i requires 0 <= i < |boxes| => Area(boxes[i]));
    ArgsortExists(scores);
    var scoresIndexes: seq<nat> :| IsArgsort(scoresIndexes, scores);
    keep := SuppressInOrder(boxes, areas, threshold, scoresIndexes);
    GreedyOnBoxesIsNmsResult(boxes, scores, threshold, scoresIndexes);
  }

  /** The loop of non_max_suppression over the indices sorted by ascending
      score: pop the last index, keep it, stop if nothing remains, else drop
      the remaining indices whose IOU with it is above the threshold. */
  method SuppressInOrder(boxes: seq<Box>, areas: seq<real>, threshold: real, order: seq<nat>)
    returns (keep: seq<nat>)
    requires IndicesIn(order, |boxes|)
    requires |areas| == |boxes| && forall i :: 0 <= i < |boxes| ==> areas[i] == Area(boxes[i])
    ensures keep == Greedy(SuppressionPairs(boxes, threshold), order)
  {
    ghost var rel := SuppressionPairs(boxes, threshold);
    var scoresIndexes: seq<nat> := order;
    keep := [];
    while |scoresIndexes| > 0
      invariant IndicesIn(scoresIndexes, |boxes|)
      invariant keep + Greedy(rel, scoresIndexes) == Greedy(rel, order)
      decreases |scoresIndexes|
    {
      var index := scoresIndexes[|scoresIndexes| - 1];
      var rest := scoresIndexes[..|scoresIndexes| - 1];
      GreedyStep(rel, keep, scoresIndexes, Greedy(rel, order));
      scoresIndexes := rest;
      keep := keep + [index];
      if |scoresIndexes| == 0 {
        break;
      }
      scoresIndexes := SuppressRound(boxes, areas, threshold, index, scoresIndexes);
      forall k | 0 <= k < |scoresIndexes| ensures scoresIndexes[k] < |boxes| {
        assert scoresIndexes[k] in scoresIndexes;
      }
    }
  }

  /** The greedy loop over an argsort of the scores meets IsNmsResult. */
  lemma GreedyOnBoxesIsNmsResult(boxes: seq<Box>, scores: seq<real>, threshold: real, order: seq<nat>)
    requires |boxes| == |scores| && IsArgsort(order, scores)
    ensures IsNmsResult(boxes, scores, threshold, Greedy(SuppressionPairs(boxes, threshold), order))
  {
    SuppressionPairsSymmetric(boxes, threshold);
    GreedyIsNmsResult(SuppressionPairs(boxes, threshold), scores, order);
  }

  /** Keeping the last remaining index and moving on to its survivors
      leaves the greedy result unchanged. */
  lemma GreedyStep(rel: Pairs, keep: seq<nat>, remaining: seq<nat>, whole: seq<nat>)
    requires remaining != [] && keep + Greedy(rel, remaining) == whole
    ensures var top := remaining[|remaining| - 1];
            (keep + [top]) + Greedy(rel, Survivors(rel, top, remaining[..|remaining| - 1])) == whole
  {
    var top := remaining[|remaining| - 1];
    var tail := Greedy(rel, Survivors(rel, top, remaining[..|remaining| - 1]));
    assert Greedy(rel, remaining) == [top] + tail;
    assert (keep + [top]) + tail == keep + ([top] + tail);
  }

  /** One pass of the loop body after `index` is kept: the IOU of the kept
      box against each remaining one, the positions above the threshold, and
      the remaining indices outside them. */
  method SuppressRound(boxes: seq<Box>, areas: seq<real>, threshold: real, index: nat, rest: seq<nat>)
    returns (survivors: seq<nat>)
    requires index < |boxes| && IndicesIn(rest, |boxes|)
    requires |areas| == |boxes| && forall i :: 0 <= i < |boxes| ==> areas[i] == Area(boxes[i])
    ensures survivors == Survivors(SuppressionPairs(boxes, threshold), index, rest)
  {
    var candidates := Gather(boxes, rest);
    var candidateAreas := Gather(areas, rest);
    assert forall k :: 0 <= k < |candidates| ==> candidateAreas[k] == Area(candidates[k]);
    var ious := ComputeIous(boxes[index], candidates, areas[index], candidateAreas);
    var filtered := set i | 0 <= i < |ious| && Exceeds(ious[i], threshold);
    RoundMatchesRelation(boxes, threshold, index, rest, ious);
    survivors := KeepUnfiltered(rest, filtered);
  }

  /** The positions whose computed IOU exceeds the threshold are exactly
      those the suppression relation drops. */
  lemma RoundMatchesRelation(boxes: seq<Box>, threshold: real, index: nat, rest: seq<nat>, ious: seq<Ratio>)
    requires index < |boxes| && IndicesIn(rest, |boxes|)
    requires |ious| == |rest| && forall k :: 0 <= k < |rest| ==> ious[k] == Iou(boxes[index], boxes[rest[k]])
    ensures (set i | 0 <= i < |ious| && Exceeds(ious[i], threshold)) == SuppressedPositions(SuppressionPairs(boxes, threshold), index, rest)
  {
    var rel := SuppressionPairs(boxes, threshold);
    forall i | 0 <= i < |rest| ensures Exceeds(ious[i], threshold) <==> (index, rest[i]) in rel {
    }
  }

  /** IOU is symmetric, so the suppression relation is too. */
  lemma SuppressionPairsSymmetric(boxes: seq<Box>, threshold: real)
    ensures Symmetric(SuppressionPairs(boxes, threshold))
  {
    var rel := SuppressionPairs(boxes, threshold);
    forall i, j | (i, j) in rel ensures (j, i) in rel {
      IouSymmetric(boxes[i], boxes[j]);
    }
  }

  // ---------------------------------------------------------------------
  // An argsort always exists (built here by insertion; any other ascending
  // order would do as well).

  ghost function InsertByScore(x: nat, s: seq<nat>, scores: seq<real>): (r: seq<nat>)
    requires x < |scores| && IndicesIn(s, |scores|)
    ensures |r| == |s| + 1 && IndicesIn(r, |scores|)
    ensures forall y :: y in r <==> y == x || y in s
  {
    if s == [] then [x]
    else if scores[x] <= scores[s[0]] then [x] + s
    else
      var t := InsertByScore(x, s[1..], scores);
      assert forall k :: 0 <= k < |t| ==> t[k] < |scores| by {
        forall k | 0 <= k < |t| ensures t[k] < |scores| {
          assert t[k] in t;
        }
      }
      [s[0]] + t
  }

  lemma {:induction false} InsertByScoreSorted(x: nat, s: seq<nat>, scores: seq<real>)
    requires x < |scores| && IndicesIn(s, |scores|)
    requires Ascending(s, scores) && Distinct(s) && x !in s
    ensures Ascending(InsertByScore(x, s, scores), scores) && Distinct(InsertByScore(x, s, scores))
  {
    if s == [] {
    } else if scores[x] <= scores[s[0]] {
      PrependSorted(x, s, scores);
    } else {
      InsertByScoreSorted(x, s[1..], scores);
      PrependSorted(s[0], InsertByScore(x, s[1..], scores), scores);
    }
  }

  /** Putting an index in front of an ascending list without repeats keeps
      it so, when the index scores no higher than every entry and is not
      one of them. */
  lemma PrependSorted(x: nat, s: seq<nat>, scores: seq<real>)
    requires x < |scores| && IndicesIn(s, |scores|)
    requires Ascending(s, scores) && Distinct(s)
    requires forall y :: y in s ==> scores[x] <= scores[y] && y != x
    ensures IndicesIn([x] + s, |scores|)
    ensures Ascending([x] + s, scores) && Distinct([x] + s)
  {
    var r := [x] + s;
    forall p, q | 0 <= p < q < |r| ensures scores[r[p]] <= scores[r[q]] && r[p] != r[q] {
      assert r[q] == s[q - 1] && s[q - 1] in s;
      if p > 0 {
        assert r[p] == s[p - 1];
      }
    }
  }

  ghost function SortedIndices(scores: seq<real>, n: nat): (r: seq<nat>)
    requires n <= |scores|
    ensures |r| == n && IndicesIn(r, n)
    ensures forall i :: 0 <= i < n ==> i in r
  {
    if n == 0 then []
    else
      var t := SortedIndices(scores, n - 1);
      assert IndicesIn(t, |scores|);
      var r := InsertByScore(n - 1, t, scores);
      forall k | 0 <= k < |r| ensures r[k] < n {
        assert r[k] in r;
        if r[k] != n - 1 {
          var j :| 0 <= j < |t| && t[j] == r[k];
        }
      }
      r
  }

  lemma {:induction false} SortedIndicesSorted(scores: seq<real>, n: nat)
    requires n <= |scores|
    ensures IndicesIn(SortedIndices(scores, n), |scores|)
    ensures Distinct(SortedIndices(scores, n)) && Ascending(SortedIndices(scores, n), scores)
  {
    if n > 0 {
      var t := SortedIndices(scores, n - 1);
      SortedIndicesSorted(scores, n - 1);
      assert n - 1 !in t;
      InsertByScoreSorted(n - 1, t, scores);
    }
  }

  lemma ArgsortExists(scores: seq<real>)
    ensures exists order :: IsArgsort(order, scores)
  {
    SortedIndicesSorted(scores, |scores|);
    assert IsArgsort(SortedIndices(scores, |scores|), scores);
  }

  // ---------------------------------------------------------------------
  // Lemmas about one round and about Greedy.

  lemma {:induction false} KeepUnfilteredDistinct(s: seq<nat>, drop: set<int>)
    requires Distinct(s)
    ensures Distinct(KeepUnfiltered(s, drop))
    decreases |s|
  {
    if s != [] {
      var init := s[..|s| - 1];
      KeepUnfilteredDistinct(init, drop);
      var k := KeepUnfiltered(init, drop);
      if |s| - 1 !in drop {
        var r := k + [s[|s| - 1]];
        forall p, q | 0 <= p < q < |r| ensures r[p] != r[q] {
          if q == |r| - 1 {
            assert r[p] in k && r[p] in init;
            var i :| 0 <= i < |init| && init[i] == r[p];
          } else {
            assert r[p] == k[p] && r[q] == k[q];
          }
        }
      }
    }
  }

  lemma {:induction false} KeepUnfilteredAscending(s: seq<nat>, drop: set<int>, scores: seq<real>)
    requires IndicesIn(s, |scores|) && Ascending(s, scores)
    ensures IndicesIn(KeepUnfiltered(s, drop), |scores|)
    ensures Ascending(KeepUnfiltered(s, drop), scores)
    decreases |s|
  {
    var r := KeepUnfiltered(s, drop);
    forall k | 0 <= k < |r| ensures r[k] < |scores| {
      assert r[k] in r;
    }
    if s != [] {
      var init := s[..|s| - 1];
      KeepUnfilteredAscending(init, drop, scores);
      var k := KeepUnfiltered(init, drop);
      if |s| - 1 !in drop {
        assert r == k + [s[|s| - 1]];
        forall p, q | 0 <= p < q < |r| ensures scores[r[p]] <= scores[r[q]] {
          if q == |r| - 1 {
            assert r[p] in k && r[p] in init;
            var i :| 0 <= i < |init| && init[i] == r[p];
          } else {
            assert r[p] == k[p] && r[q] == k[q];
          }
        }
      }
    }
  }

  lemma {:induction false} GreedyIndicesIn(rel: Pairs, remaining: seq<nat>, n: nat)
    requires IndicesIn(remaining, n)
    ensures IndicesIn(Greedy(rel, remaining), n)
  {
    var keep := Greedy(rel, remaining);
    forall k | 0 <= k < |keep| ensures keep[k] < n {
      assert keep[k] in keep;
    }
  }

  lemma {:induction false} GreedyDistinct(rel: Pairs, remaining: seq<nat>)
    requires Distinct(remaining)
    ensures Distinct(Greedy(rel, remaining))
    decreases |remaining|
  {
    if remaining != [] {
      var top := remaining[|remaining| - 1];
      var rest := remaining[..|remaining| - 1];
      var survivors := Survivors(rel, top, rest);
      KeepUnfilteredDistinct(rest, SuppressedPositions(rel, top, rest));
      GreedyDistinct(rel, survivors);
      var tail := Greedy(rel, survivors);
      var keep := [top] + tail;
      forall p, q | 0 <= p < q < |keep| ensures keep[p] != keep[q] {
        if p == 0 {
          assert keep[q] == tail[q - 1] && keep[q] in tail && keep[q] in survivors;
          var i :| 0 <= i < |rest| && rest[i] == keep[q];
          assert remaining[i] == rest[i];
        } else {
          assert keep[p] == tail[p - 1] && keep[q] == tail[q - 1];
        }
      }
    }
  }

  lemma {:induction false} GreedyScoresNonIncreasing(rel: Pairs, scores: seq<real>, remaining: seq<nat>)
    requires IndicesIn(remaining, |scores|) && Ascending(remaining, scores)
    ensures IndicesIn(Greedy(rel, remaining), |scores|)
    ensures ScoresNonIncreasing(scores, Greedy(rel, remaining))
    decreases |remaining|
  {
    GreedyIndicesIn(rel, remaining, |scores|);
    if remaining != [] {
      var top := remaining[|remaining| - 1];
      var rest := remaining[..|remaining| - 1];
      var survivors := Survivors(rel, top, rest);
      KeepUnfilteredAscending(rest, SuppressedPositions(rel, top, rest), scores);
      GreedyScoresNonIncreasing(rel, scores, survivors);
      TopScoreDominates(rel, scores, remaining);
      ConsNonIncreasing(scores, top, Greedy(rel, survivors));
    }
  }

  /** Prepending an index that scores at least as high as every later one
      keeps the scores non-increasing. */
  lemma ConsNonIncreasing(scores: seq<real>, top: nat, tail: seq<nat>)
    requires top < |scores| && IndicesIn(tail, |scores|)
    requires ScoresNonIncreasing(scores, tail)
    requires forall k :: 0 <= k < |tail| ==> scores[tail[k]] <= scores[top]
    ensures IndicesIn([top] + tail, |scores|)
    ensures ScoresNonIncreasing(scores, [top] + tail)
  {
    var keep := [top] + tail;
    forall p, q | 0 <= p < q < |keep| ensures scores[keep[q]] <= scores[keep[p]] {
      assert keep[q] == tail[q - 1];
      if p > 0 {
        assert keep[p] == tail[p - 1];
      }
    }
  }

  /** Whatever the loop keeps after the top index scores no higher than it. */
  lemma TopScoreDominates(rel: Pairs, scores: seq<real>, remaining: seq<nat>)
    requires IndicesIn(remaining, |scores|) && Ascending(remaining, scores) && remaining != []
    ensures var rest := remaining[..|remaining| - 1];
            var tail := Greedy(rel, Survivors(rel, remaining[|remaining| - 1], rest));
            IndicesIn(tail, |scores|) &&
            forall k :: 0 <= k < |tail| ==> scores[tail[k]] <= scores[remaining[|remaining| - 1]]
  {
    var top := remaining[|remaining| - 1];
    var rest := remaining[..|remaining| - 1];
    var survivors := Survivors(rel, top, rest);
    var tail := Greedy(rel, survivors);
    forall k | 0 <= k < |tail| ensures tail[k] < |scores| && scores[tail[k]] <= scores[top] {
      assert tail[k] in tail && tail[k] in survivors;
      var i :| 0 <= i < |rest| && rest[i] == tail[k];
      assert remaining[i] == tail[k];
    }
  }

  lemma {:induction false} GreedyPairwiseSeparated(rel: Pairs, remaining: seq<nat>)
    ensures forall p, q :: 0 <= p < q < |Greedy(rel, remaining)| ==>
      (Greedy(rel, remaining)[p], Greedy(rel, remaining)[q]) !in rel
    decreases |remaining|
  {
    if remaining != [] {
      var top := remaining[|remaining| - 1];
      var rest := remaining[..|remaining| - 1];
      var survivors := Survivors(rel, top, rest);
      GreedyPairwiseSeparated(rel, survivors);
      SurvivorsExact(rel, top, rest);
      var tail := Greedy(rel, survivors);
      var keep := [top] + tail;
      forall p, q | 0 <= p < q < |keep| ensures (keep[p], keep[q]) !in rel {
        if p == 0 {
          assert keep[q] == tail[q - 1] && keep[q] in tail && keep[q] in survivors;
        } else {
          assert keep[p] == tail[p - 1] && keep[q] == tail[q - 1];
        }
      }
    }
  }

  /** An index the loop does not keep was suppressed by a kept index
      whose score is at least its own. */
  lemma {:induction false} GreedyDropJustified(rel: Pairs, scores: seq<real>, remaining: seq<nat>, x: nat)
    requires IndicesIn(remaining, |scores|) && Ascending(remaining, scores)
    requires x in remaining && x !in Greedy(rel, remaining)
    ensures IndicesIn(Greedy(rel, remaining), |scores|)
    ensures exists p :: 0 <= p < |Greedy(rel, remaining)| &&
                        scores[x] <= scores[Greedy(rel, remaining)[p]] && (Greedy(rel, remaining)[p], x) in rel
    decreases |remaining|, 1
  {
    var top := remaining[|remaining| - 1];
    var rest := remaining[..|remaining| - 1];
    if x in Survivors(rel, top, rest) {
      DroppedLater(rel, scores, remaining, x);
    } else {
      DroppedByTop(rel, scores, remaining, x);
    }
  }

  /** An index that survives the first round but is not kept was dropped
      in a later round. */
  lemma {:induction false} DroppedLater(rel: Pairs, scores: seq<real>, remaining: seq<nat>, x: nat)
    requires IndicesIn(remaining, |scores|) && Ascending(remaining, scores) && remaining != []
    requires x in Survivors(rel, remaining[|remaining| - 1], remaining[..|remaining| - 1])
    requires x !in Greedy(rel, remaining)
    ensures IndicesIn(Greedy(rel, remaining), |scores|)
    ensures exists p :: 0 <= p < |Greedy(rel, remaining)| &&
                        scores[x] <= scores[Greedy(rel, remaining)[p]] && (Greedy(rel, remaining)[p], x) in rel
    decreases |remaining|, 0
  {
    var top := remaining[|remaining| - 1];
    var rest := remaining[..|remaining| - 1];
    var survivors := Survivors(rel, top, rest);
    assert Greedy(rel, remaining) == [top] + Greedy(rel, survivors);
    KeepUnfilteredAscending(rest, SuppressedPositions(rel, top, rest), scores);
    GreedyDropJustified(rel, scores, survivors, x);
    ShiftWitness(rel, scores, remaining, x);
  }

  /** A witness found among the later rounds is a witness for the whole loop. */
  lemma ShiftWitness(rel: Pairs, scores: seq<real>, remaining: seq<nat>, x: nat)
    requires IndicesIn(remaining, |scores|) && remaining != [] && x < |scores|
    requires var tail := Greedy(rel, Survivors(rel, remaining[|remaining| - 1], remaining[..|remaining| - 1]));
             IndicesIn(tail, |scores|) &&
             exists p :: 0 <= p < |tail| && scores[x] <= scores[tail[p]] && (tail[p], x) in rel
    ensures IndicesIn(Greedy(rel, remaining), |scores|)
    ensures exists p :: 0 <= p < |Greedy(rel, remaining)| &&
                        scores[x] <= scores[Greedy(rel, remaining)[p]] && (Greedy(rel, remaining)[p], x) in rel
  {
    GreedyIndicesIn(rel, remaining, |scores|);
    var tail := Greedy(rel, Survivors(rel, remaining[|remaining| - 1], remaining[..|remaining| - 1]));
    var keep := Greedy(rel, remaining);
    assert keep == [remaining[|remaining| - 1]] + tail;
    var p :| 0 <= p < |tail| && scores[x] <= scores[tail[p]] && (tail[p], x) in rel;
    WitnessAt(rel, scores, keep, x, p + 1);
  }

  /** A kept index at position p that suppresses x and scores at least as
      high justifies dropping x. */
  lemma WitnessAt(rel: Pairs, scores: seq<real>, keep: seq<nat>, x: nat, p: nat)
    requires x < |scores| && p < |keep| && IndicesIn(keep, |scores|)
    requires scores[x] <= scores[keep[p]] && (keep[p], x) in rel
    ensures exists q :: 0 <= q < |keep| && scores[x] <= scores[keep[q]] && (keep[q], x) in rel
  {
  }

  /** An index of the remaining ones that does not survive the first round
      was suppressed by the top index, which scores at least as high. */
  lemma DroppedByTop(rel: Pairs, scores: seq<real>, remaining: seq<nat>, x: nat)
    requires IndicesIn(remaining, |scores|) && Ascending(remaining, scores) && remaining != []
    requires x in remaining && x != remaining[|remaining| - 1]
    requires x !in Survivors(rel, remaining[|remaining| - 1], remaining[..|remaining| - 1])
    ensures IndicesIn(Greedy(rel, remaining), |scores|)
    ensures exists p :: 0 <= p < |Greedy(rel, remaining)| &&
                        scores[x] <= scores[Greedy(rel, remaining)[p]] && (Greedy(rel, remaining)[p], x) in rel
  {
    GreedyIndicesIn(rel, remaining, |scores|);
    var top := remaining[|remaining| - 1];
    var rest := remaining[..|remaining| - 1];
    var i :| 0 <= i < |remaining| && remaining[i] == x;
    assert i < |rest| && rest[i] == x;
    assert (top, x) in rel by {
      SurvivorsExact(rel, top, rest);
    }
    assert scores[x] <= scores[top];
    WitnessAt(rel, scores, Greedy(rel, remaining), x, 0);
  }

  /** For any order argsort may produce and any symmetric relation, the
      greedy loop meets every property of SatisfiesNms. */
  lemma GreedyIsNmsResult(rel: Pairs, scores: seq<real>, order: seq<nat>)
    requires IsArgsort(order, scores) && Symmetric(rel)
    ensures SatisfiesNms(rel, scores, Greedy(rel, order))
  {
    GreedyDistinct(rel, order);
    GreedyScoresNonIncreasing(rel, scores, order);
    GreedySeparated(rel, order);
    GreedyTopFirst(rel, scores, order);
    GreedyDropsJustified(rel, scores, order);
  }

  /** Under a symmetric relation no kept index suppresses another, earlier
      or later. */
  lemma GreedySeparated(rel: Pairs, order: seq<nat>)
    requires Symmetric(rel)
    ensures PairwiseSeparated(rel, Greedy(rel, order))
  {
    var keep := Greedy(rel, order);
    GreedyPairwiseSeparated(rel, order);
    forall p, q | 0 <= p < |keep| && 0 <= q < |keep| && p != q
      ensures (keep[p], keep[q]) !in rel
    {
      if q < p {
        assert (keep[q], keep[p]) !in rel;
      }
    }
  }

  /** The first kept index has the top score. */
  lemma GreedyTopFirst(rel: Pairs, scores: seq<real>, order: seq<nat>)
    requires IsArgsort(order, scores)
    ensures forall i :: 0 <= i < |scores| && Greedy(rel, order) != [] ==> scores[i] <= scores[Greedy(rel, order)[0]]
  {
    var keep := Greedy(rel, order);
    forall i | 0 <= i < |scores| && keep != []
      ensures scores[i] <= scores[keep[0]]
    {
      assert i in order;
      var j :| 0 <= j < |order| && order[j] == i;
      assert keep[0] == order[|order| - 1];
    }
  }

  /** Every index the loop over an argsort leaves out is justified. */
  lemma GreedyDropsJustified(rel: Pairs, scores: seq<real>, order: seq<nat>)
    requires IsArgsort(order, scores)
    ensures IndicesIn(Greedy(rel, order), |scores|)
    ensures DropsJustified(rel, scores, Greedy(rel, order))
  {
    var keep := Greedy(rel, order);
    GreedyIndicesIn(rel, order, |scores|);
    forall i | 0 <= i < |scores| && i !in keep
      ensures exists p :: 0 <= p < |keep| && scores[i] <= scores[keep[p]] && (keep[p], i) in rel
    {
      assert i in order;
      GreedyDropJustified(rel, scores, order, i);
    }
  }

  // ---------------------------------------------------------------------
  // Consequences of the promised properties.

  /** Every input scores at most as high as the first kept index. */
  lemma NmsFirstIsTop(boxes: seq<Box>, scores: seq<real>, threshold: real, keep: seq<nat>, i: nat)
    requires IsNmsResult(boxes, scores, threshold, keep) && i < |scores|
    ensures keep != [] && keep[0] < |scores| && scores[i] <= scores[keep[0]]
  {
  }

  /** Under a relation that relates no two distinct indices, every index is kept. */
  lemma NothingRelatedKeepsAll(rel: Pairs, scores: seq<real>, keep: seq<nat>)
    requires SatisfiesNms(rel, scores, keep)
    requires forall i, j :: 0 <= i < |scores| && 0 <= j < |scores| && i != j ==> (i, j) !in rel
    ensures forall i :: 0 <= i < |scores| ==> i in keep
  {
  }

  /** When no two distinct boxes overlap above the threshold, every index is kept. */
  lemma NoOverlapKeepsAll(boxes: seq<Box>, scores: seq<real>, threshold: real, keep: seq<nat>)
    requires IsNmsResult(boxes, scores, threshold, keep)
    requires forall i, j :: 0 <= i < |boxes| && 0 <= j < |boxes| && i != j ==> !Exceeds(Iou(boxes[i], boxes[j]), threshold)
    ensures forall i :: 0 <= i < |boxes| ==> i in keep
  {
    NothingRelatedKeepsAll(SuppressionPairs(boxes, threshold), scores, keep);
  }

  /** The boxes NMS keeps overlap pairwise at most up to the threshold. */
  lemma KeptBoxesSeparated(boxes: seq<Box>, scores: seq<real>, threshold: real, keep: seq<nat>)
    requires IsNmsResult(boxes, scores, threshold, keep)
    ensures IndicesIn(keep, |boxes|)
    ensures forall i, j :: 0 <= i < |keep| && 0 <= j < |keep| && i != j ==>
              !Exceeds(Iou(Gather(boxes, keep)[i], Gather(boxes, keep)[j]), threshold)
  {
    var kb := Gather(boxes, keep);
    forall i, j | 0 <= i < |keep| && 0 <= j < |keep| && i != j
      ensures !Exceeds(Iou(kb[i], kb[j]), threshold)
    {
      assert (keep[i], keep[j]) !in SuppressionPairs(boxes, threshold);
    }
  }

  /** Indexing `keep` by a sequence that covers all of its positions
      yields the same set of indices. */
  lemma GatherCovering(keep: seq<nat>, again: seq<nat>)
    requires IndicesIn(again, |keep|)
    requires forall j :: 0 <= j < |keep| ==> j in again
    ensures forall x :: x in keep <==> x in Gather(keep, again)
  {
    var back := Gather(keep, again);
    forall x | x in keep ensures x in back {
      var j :| 0 <= j < |keep| && keep[j] == x;
      assert j in again;
      var p :| 0 <= p < |again| && again[p] == j;
      assert back[p] == x;
    }
  }

  /** Running NMS again on its own output (the kept boxes and scores, in
      kept order) keeps every one of them: the set of boxes is unchanged. */
  lemma RerunKeepsAll(boxes: seq<Box>, scores: seq<real>, threshold: real, keep: seq<nat>, again: seq<nat>)
    requires IsNmsResult(boxes, scores, threshold, keep)
    requires IsNmsResult(Gather(boxes, keep), Gather(scores, keep), threshold, again)
    ensures forall j :: 0 <= j < |keep| ==> j in again
    ensures IndicesIn(again, |keep|)
    ensures forall x :: x in keep <==> x in Gather(keep, again)
  {
    KeptBoxesSeparated(boxes, scores, threshold, keep);
    NoOverlapKeepsAll(Gather(boxes, keep), Gather(scores, keep), threshold, again);
    GatherCovering(keep, again);
  }

  /** Two identical boxes scoring 0.9 and 0.5 with threshold 0.45: the
      higher-scoring one comes first and the other is dropped. */
  lemma IdenticalBoxesKeepHigher(b: Box, keep: seq<nat>)
    requires WellFormed(b) && Area(b) > 0.0
    requires IsNmsResult([b, b], [0.9, 0.5], 0.45, keep)
    ensures keep == [0]
  {
    IouIdentical(b);
    var scores := [0.9, 0.5];
    assert keep != [];
    assert scores[0] <= scores[keep[0]];
    assert (0, 1) in SuppressionPairs([b, b], 0.45);
    assert Elements(keep) == {0};
    DistinctCount(keep);
  }

  /** Two disjoint boxes are both kept, whatever their scores. */
  lemma DisjointBoxesBothKept(a: Box, b: Box, sa: real, sb: real, threshold: real, keep: seq<nat>)
    requires Min(a.2, b.2) <= Max(a.0, b.0) || Min(a.3, b.3) <= Max(a.1, b.1)
    requires threshold >= 0.0
    requires IsNmsResult([a, b], [sa, sb], threshold, keep)
    ensures 0 in keep && 1 in keep
  {
    DisjointNotSuppressed(a, b, threshold);
    assert Min(b.2, a.2) <= Max(b.0, a.0) || Min(b.3, a.3) <= Max(b.1, a.1);
    DisjointNotSuppressed(b, a, threshold);
    NoOverlapKeepsAll([a, b], [sa, sb], threshold, keep);
  }

  /** Four boxes on which lowering the threshold from 0.6 to 0.4 keeps more
      boxes: A overlaps B with IOU 0.5, B overlaps C and D with IOU 0.7, and
      every other pair has IOU at most 0.4. */
  const BoxA: Box := (0.0, 0.0, 10.0, 2.0)
  const BoxB: Box := (0.0, 0.0, 10.0, 1.0)
  const BoxC: Box := (0.0, 0.0, 7.0, 1.0)
  const BoxD: Box := (3.0, 0.0, 10.0, 1.0)
  const ChainScores: seq<real> := [4.0, 3.0, 2.0, 1.0]

  function Chain(): (boxes: seq<Box>)
    ensures |boxes| == 4
  {
    [BoxA, BoxB, BoxC, BoxD]
  }

  /** The distinct entries of a sequence. */
  function Elements(keep: seq<nat>): (r: set<nat>)
    ensures forall x :: x in r <==> x in keep
  {
    set x | x in keep
  }

  /** A sequence without repetitions has as many entries as elements. */
  lemma {:induction false} DistinctCount(keep: seq<nat>)
    requires Distinct(keep)
    ensures |Elements(keep)| == |keep|
    decreases |keep|
  {
    if keep != [] {
      var init := keep[..|keep| - 1];
      var last := keep[|keep| - 1];
      DistinctCount(init);
      assert last !in init;
      assert Elements(keep) == Elements(init) + {last};
    }
  }

  /** Greedy suppression is not monotone in the threshold: at 0.4, A drops
      B, which then no longer drops C and D, so three boxes are kept; at 0.6,
      B survives A and drops C and D, so only two are. */
  lemma LowerThresholdKeepsMore(keepLow: seq<nat>, keepHigh: seq<nat>)
    requires IsNmsResult(Chain(), ChainScores, 0.4, keepLow)
    requires IsNmsResult(Chain(), ChainScores, 0.6, keepHigh)
    ensures Elements(keepLow) == {0, 2, 3} && |keepLow| == 3
    ensures Elements(keepHigh) == {0, 1} && |keepHigh| == 2
  {
    ChainKeptAtLow(keepLow);
    ChainKeptAtHigh(keepHigh);
  }

  /** At 0.4 the kept boxes are A, C and D. */
  lemma ChainKeptAtLow(keep: seq<nat>)
    requires IsNmsResult(Chain(), ChainScores, 0.4, keep)
    ensures Elements(keep) == {0, 2, 3} && |keep| == 3
  {
    ChainPairsLow();
    ChainLow(SuppressionPairs(Chain(), 0.4), keep);
  }

  /** At 0.6 the kept boxes are A and B. */
  lemma ChainKeptAtHigh(keep: seq<nat>)
    requires IsNmsResult(Chain(), ChainScores, 0.6, keep)
    ensures Elements(keep) == {0, 1} && |keep| == 2
  {
    ChainPairsHigh();
    ChainHigh(SuppressionPairs(Chain(), 0.6), keep);
  }

  lemma IouAB() ensures Iou(BoxA, BoxB) == Finite(0.5)
  {
    assert Intersection(BoxA, BoxB) == 10.0;
  }

  lemma IouAC() ensures Iou(BoxA, BoxC) == Finite(0.35)
  {
    assert Intersection(BoxA, BoxC) == 7.0;
  }

  lemma IouAD() ensures Iou(BoxA, BoxD) == Finite(0.35)
  {
    assert Intersection(BoxA, BoxD) == 7.0;
  }

  lemma IouBC() ensures Iou(BoxB, BoxC) == Finite(0.7)
  {
    assert Intersection(BoxB, BoxC) == 7.0;
  }

  lemma IouBD() ensures Iou(BoxB, BoxD) == Finite(0.7)
  {
    assert Intersection(BoxB, BoxD) == 7.0;
  }

  lemma IouCD() ensures Iou(BoxC, BoxD) == Finite(0.4)
  {
    assert Intersection(BoxC, BoxD) == 4.0;
  }

  /** The pairs ChainLow needs of the relation at 0.4. */
  lemma ChainPairsLow()
    ensures var rel := SuppressionPairs(Chain(), 0.4);
      (0, 1) in rel && (0, 2) !in rel && (0, 3) !in rel && (2, 3) !in rel && (3, 2) !in rel
  {
    IouAB(); IouAC(); IouAD(); IouCD();
    IouSymmetric(BoxC, BoxD);
    var b := Chain();
    assert Exceeds(Iou(b[0], b[1]), 0.4);
  }

  /** The pairs ChainHigh needs of the relation at 0.6. */
  lemma ChainPairsHigh()
    ensures var rel := SuppressionPairs(Chain(), 0.6);
      (0, 1) !in rel && (1, 2) in rel && (1, 3) in rel
  {
    IouAB(); IouBC(); IouBD();
    var b := Chain();
    assert Exceeds(Iou(b[1], b[2]), 0.6);
    assert Exceeds(Iou(b[1], b[3]), 0.6);
  }

  /** Two kept indices never suppress each other. */
  lemma KeptApart(rel: Pairs, scores: seq<real>, keep: seq<nat>, x: nat, y: nat)
    requires SatisfiesNms(rel, scores, keep)
    requires x in keep && y in keep && x != y
    ensures (x, y) !in rel
  {
    var p :| 0 <= p < |keep| && keep[p] == x;
    var q :| 0 <= q < |keep| && keep[q] == y;
  }

  /** An index that no kept index suppresses is kept itself. */
  lemma UnsuppressedKept(rel: Pairs, scores: seq<real>, keep: seq<nat>, x: nat)
    requires SatisfiesNms(rel, scores, keep)
    requires x < |scores| && forall y :: y in keep && y != x ==> (y, x) !in rel
    ensures x in keep
  {
  }

  /** With the Chain scores the first box, which scores highest, is kept. */
  lemma ChainTopKept(rel: Pairs, keep: seq<nat>)
    requires SatisfiesNms(rel, ChainScores, keep)
    ensures 0 in keep
  {
    assert ChainScores[0] <= ChainScores[keep[0]];
    assert keep[0] == 0;
  }

  /** At 0.4: A is kept, so B is not, and nothing kept drops C or D. */
  lemma ChainLow(rel: Pairs, keep: seq<nat>)
    requires SatisfiesNms(rel, ChainScores, keep)
    requires (0, 1) in rel && (0, 2) !in rel && (0, 3) !in rel && (2, 3) !in rel && (3, 2) !in rel
    ensures Elements(keep) == {0, 2, 3} && |keep| == 3
  {
    ChainLowMembers(rel, keep);
    ElementsBelowFour(keep, {0, 2, 3});
    DistinctCount(keep);
  }

  lemma ChainLowMembers(rel: Pairs, keep: seq<nat>)
    requires SatisfiesNms(rel, ChainScores, keep)
    requires (0, 1) in rel && (0, 2) !in rel && (0, 3) !in rel && (2, 3) !in rel && (3, 2) !in rel
    ensures 0 in keep && 1 !in keep && 2 in keep && 3 in keep
  {
    ChainTopKept(rel, keep);
    assert 1 !in keep by {
      if 1 in keep {
        KeptApart(rel, ChainScores, keep, 0, 1);
      }
    }
    assert forall y :: y in keep ==> y == 0 || y == 2 || y == 3;
    UnsuppressedKept(rel, ChainScores, keep, 2);
    UnsuppressedKept(rel, ChainScores, keep, 3);
  }

  /** The elements of a sequence of indices below 4, read off membership. */
  lemma ElementsBelowFour(keep: seq<nat>, e: set<nat>)
    requires IndicesIn(keep, 4) && forall x :: x in e ==> x < 4
    requires forall x :: x < 4 ==> (x in keep <==> x in e)
    ensures Elements(keep) == e
  {
  }

  /** At 0.6: A is kept and does not drop B, and B drops C and D. */
  lemma ChainHigh(rel: Pairs, keep: seq<nat>)
    requires SatisfiesNms(rel, ChainScores, keep)
    requires (0, 1) !in rel && (1, 2) in rel && (1, 3) in rel
    ensures Elements(keep) == {0, 1} && |keep| == 2
  {
    ChainHighMembers(rel, keep);
    ElementsBelowFour(keep, {0, 1});
    DistinctCount(keep);
  }

  lemma ChainHighMembers(rel: Pairs, keep: seq<nat>)
    requires SatisfiesNms(rel, ChainScores, keep)
    requires (0, 1) !in rel && (1, 2) in rel && (1, 3) in rel
    ensures 0 in keep && 1 in keep && 2 !in keep && 3 !in keep
  {
    ChainTopKept(rel, keep);
    UnsuppressedKeptByTop(rel, keep);
    assert 2 !in keep by {
      if 2 in keep {
        KeptApart(rel, ChainScores, keep, 1, 2);
      }
    }
    assert 3 !in keep by {
      if 3 in keep {
        KeptApart(rel, ChainScores, keep, 1, 3);
      }
    }
  }

  /** At 0.6 nothing scoring above B can drop it: only A scores higher. */
  lemma UnsuppressedKeptByTop(rel: Pairs, keep: seq<nat>)
    requires SatisfiesNms(rel, ChainScores, keep)
    requires (0, 1) !in rel
    ensures 1 in keep
  {
  }
}
