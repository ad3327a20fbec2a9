/** The interval merger (`merge_segment` in SSL/local/vad.py).

    It folds the ordered speech intervals of one recording into longer
    intervals. A running interval `[start, end]` absorbs the next raw interval
    unless it is already longer than `mergeMs` (a forced cut, flushed
    whatever its length) or the silence before the next raw interval is
    longer than `blankMs` (a gap cut, flushed only when longer than
    `minMs`). The last running interval is flushed only when longer than
    `minMs`. All thresholds are held in integer milliseconds. */
module Merger {
  import opened Wrappers
  import opened Intervals

  /** What the running interval `cur` contributes to the output when `item`
      arrives. */
  function Emit(cur: Interval, item: Interval, mergeMs: int, minMs: int, blankMs: int): seq<Interval>
  {
    if Duration(cur) > mergeMs then [cur]
    else if item.start - cur.end > blankMs then (if Duration(cur) > minMs then [cur] else [])
    else []
  }

  /** The running interval after `item` has been folded in. */
  function Advance(cur: Interval, item: Interval, mergeMs: int, blankMs: int): Interval
  {
    if Duration(cur) > mergeMs || item.start - cur.end > blankMs then item
    else Interval(cur.start, item.end)
  }

  /** The flush after the loop. */
  function Final(cur: Interval, minMs: int): seq<Interval>
  {
    if Duration(cur) > minMs then [cur] else []
  }

  /** The intervals flushed while `items` are folded into the running
      interval `cur`, followed by the final flush. */
  function Fold(items: seq<Interval>, cur: Interval, mergeMs: int, minMs: int, blankMs: int): seq<Interval>
    decreases |items|
  {
    if items == [] then
      Final(cur, minMs)
    else
      Emit(cur, items[0], mergeMs, minMs, blankMs)
      + Fold(items[1..], Advance(cur, items[0], mergeMs, blankMs), mergeMs, minMs, blankMs)
  }

  /** The whole merge: no merge time means no merging at all. */
  function Merge(segment: seq<Interval>, mergeMs: Option<int>, minMs: int, blankMs: int): seq<Interval>
  {
    match mergeMs
    case None => segment
    case Some(m) => if segment == [] then [] else Fold(segment[1..], segment[0], m, minMs, blankMs)
  }

  /** The loop of `merge_segment`. */
  method MergeSegment(segment: seq<Interval>, mergeMs: Option<int>, minMs: int, blankMs: int)
    returns (merged: seq<Interval>)
    ensures merged == Merge(segment, mergeMs, minMs, blankMs)
    ensures mergeMs.None? ==> merged == segment
    ensures segment == [] ==> merged == []
  {
    if mergeMs.None? {
      return segment;
    }
    var mergeTime := mergeMs.value;
    var newValue: seq<Interval> := [];
    var started := false;
    var start, end := 0, 0;
    for i := 0 to |segment|
      invariant started <==> i > 0
      invariant !started ==> newValue == []
      invariant started ==>
        newValue + Fold(segment[i..], Interval(start, end), mergeTime, minMs, blankMs)
        == Fold(segment[1..], segment[0], mergeTime, minMs, blankMs)
    {
      var item := segment[i];
      if !started {
        started := true;
        start, end := item.start, item.end;
        assert item == Interval(start, end);
      } else {
        ghost var prev, cur := newValue, Interval(start, end);
        FoldStep(segment[i..], cur, mergeTime, minMs, blankMs);
        assert segment[i..][0] == item && segment[i..][1..] == segment[i + 1..];
        if end - start > mergeTime {
          newValue := newValue + [Interval(start, end)];
          start, end := item.start, item.end;
        } else if item.start - end > blankMs {
          if end - start > minMs {
            newValue := newValue + [Interval(start, end)];
          }
          start, end := item.start, item.end;
        } else {
          end := item.end;
        }
        assert newValue == prev + Emit(cur, item, mergeTime, minMs, blankMs);
        assert Interval(start, end) == Advance(cur, item, mergeTime, blankMs);
      }
    }
    assert segment[|segment|..] == [];
    assert started ==> Fold([], Interval(start, end), mergeTime, minMs, blankMs) == Final(Interval(start, end), minMs);
    if started && end - start > minMs {
      newValue := newValue + [Interval(start, end)];
    }
    merged := newValue;
  }

  /** Folding a non-empty list: what the running interval emits for the
      first item, then the fold of the rest. */
  lemma FoldStep(items: seq<Interval>, cur: Interval, mergeMs: int, minMs: int, blankMs: int)
    requires items != []
    ensures Fold(items, cur, mergeMs, minMs, blankMs)
      == Emit(cur, items[0], mergeMs, minMs, blankMs)
      + Fold(items[1..], Advance(cur, items[0], mergeMs, blankMs), mergeMs, minMs, blankMs)
  {
  }

  /** Every interval a merge outputs is longer than `minMs`, unless it was
      flushed by a forced cut, in which case it is longer than the merge
      time: a short interval survives only through a forced cut. */
  lemma {:induction false} FoldKeepsLong(items: seq<Interval>, cur: Interval, mergeMs: int, minMs: int, blankMs: int)
    ensures forall iv :: iv in Fold(items, cur, mergeMs, minMs, blankMs) ==>
      Duration(iv) > minMs || Duration(iv) > mergeMs
  {
    if items != [] {
      FoldKeepsLong(items[1..], Advance(cur, items[0], mergeMs, blankMs), mergeMs, minMs, blankMs);
    }
  }

  lemma MergeKeepsLong(segment: seq<Interval>, mergeMs: int, minMs: int, blankMs: int)
    ensures forall iv :: iv in Merge(segment, Some(mergeMs), minMs, blankMs) ==>
      Duration(iv) > minMs || Duration(iv) > mergeMs
  {
    if segment != [] {
      FoldKeepsLong(segment[1..], segment[0], mergeMs, minMs, blankMs);
    }
  }

  /** `r` is made of hulls of consecutive, non-overlapping runs of the raw
      intervals `s`, in input order, all starting at index `a` or later:
      output `k` spans `s[firsts[k]..lasts[k]]`. */
  ghost predicate Runs(s: seq<Interval>, a: nat, r: seq<Interval>, firsts: seq<nat>, lasts: seq<nat>)
  {
    && |firsts| == |r| && |lasts| == |r| && |r| <= |s| - a
    && (forall k :: 0 <= k < |r| ==>
          a <= firsts[k] <= lasts[k] < |s| && r[k] == Interval(s[firsts[k]].start, s[lasts[k]].end))
    && (forall k, k' :: 0 <= k < k' < |r| ==> lasts[k] < firsts[k'])
  }

  /** A run `s[a..j]` in front of runs that start after `j`. */
  lemma RunsCons(s: seq<Interval>, a: nat, j: nat, r: seq<Interval>, firsts: seq<nat>, lasts: seq<nat>)
    requires a <= j < |s| && Runs(s, j + 1, r, firsts, lasts)
    ensures Runs(s, a, [Interval(s[a].start, s[j].end)] + r, [a] + firsts, [j] + lasts)
  {
    var r', f', l' := [Interval(s[a].start, s[j].end)] + r, [a] + firsts, [j] + lasts;
    forall k | 1 <= k < |r'|
      ensures r'[k] == r[k - 1] && f'[k] == firsts[k - 1] && l'[k] == lasts[k - 1]
    {
    }
    forall k, k' | 0 <= k < k' < |r'|
      ensures l'[k] < f'[k']
    {
      if k > 0 {
        assert lasts[k - 1] < firsts[k' - 1];
      }
    }
  }

  /** Runs that start at `a'` or later also start at `a <= a'` or later. */
  lemma RunsWeaken(s: seq<Interval>, a: nat, a': nat, r: seq<Interval>, firsts: seq<nat>, lasts: seq<nat>)
    requires a <= a' && Runs(s, a', r, firsts, lasts)
    ensures Runs(s, a, r, firsts, lasts)
  {
  }

  /** The outputs of folding `s[j+1..]` into the running interval that spans
      the raw intervals `s[a..j]` are hulls of consecutive, non-overlapping
      runs of raw intervals, in input order, all starting at index `a` or
      later. */
  lemma {:induction false} FoldRuns(s: seq<Interval>, a: nat, j: nat, mergeMs: int, minMs: int, blankMs: int)
    returns (firsts: seq<nat>, lasts: seq<nat>)
    requires a <= j < |s|
    ensures Runs(s, a, Fold(s[j + 1..], Interval(s[a].start, s[j].end), mergeMs, minMs, blankMs), firsts, lasts)
    decreases |s| - j
  {
    var cur := Interval(s[a].start, s[j].end);
    if j + 1 == |s| {
      assert Fold(s[j + 1..], cur, mergeMs, minMs, blankMs) == Final(cur, minMs);
      if Duration(cur) > minMs {
        RunsCons(s, a, j, [], [], []);
        firsts, lasts := [a], [j];
      } else {
        firsts, lasts := [], [];
      }
    } else {
      var item := s[j + 1];
      assert s[j + 1..][1..] == s[j + 2..];
      var emitted := Emit(cur, item, mergeMs, minMs, blankMs);
      var next := Advance(cur, item, mergeMs, blankMs);
      var rest := Fold(s[j + 2..], next, mergeMs, minMs, blankMs);
      assert Fold(s[j + 1..], cur, mergeMs, minMs, blankMs) == emitted + rest;
      var a' := if next == item then j + 1 else a;
      if next == item {
        assert next == Interval(s[j + 1].start, s[j + 1].end);
      }
      var f', l' := FoldRuns(s, a', j + 1, mergeMs, minMs, blankMs);
      if emitted == [] {
        assert emitted + rest == rest;
        RunsWeaken(s, a, a', rest, f', l');
        firsts, lasts := f', l';
      } else {
        assert next == item && emitted == [cur];
        RunsCons(s, a, j, rest, f', l');
        firsts, lasts := [a] + f', [j] + l';
      }
    }
  }

  /** Each merged interval starts where some raw interval starts and ends
      where a later-or-same raw interval ends; the runs of raw intervals
      behind consecutive outputs are disjoint and in input order. */
  lemma MergeProvenance(segment: seq<Interval>, mergeMs: int, minMs: int, blankMs: int)
    returns (firsts: seq<nat>, lasts: seq<nat>)
    ensures var r := Merge(segment, Some(mergeMs), minMs, blankMs);
      && |firsts| == |r| && |lasts| == |r| && |r| <= |segment|
      && (forall k :: 0 <= k < |r| ==>
            firsts[k] <= lasts[k] < |segment| && r[k] == Interval(segment[firsts[k]].start, segment[lasts[k]].end))
      && (forall k :: 0 <= k < |r| - 1 ==> lasts[k] < firsts[k + 1])
  {
    if segment == [] {
      firsts, lasts := [], [];
    } else {
      assert segment[0] == Interval(segment[0].start, segment[0].end);
      firsts, lasts := FoldRuns(segment, 0, 0, mergeMs, minMs, blankMs);
    }
  }

  /** In sorted, non-overlapping raw intervals, an earlier interval ends no
      later than any later one starts. */
  lemma {:induction false} OrderedSpan(s: seq<Interval>, i: nat, j: nat)
    requires Proper(s) && Ordered(s)
    requires i < j < |s|
    ensures s[i].end <= s[j].start
    decreases j - i
  {
    if i + 1 < j {
      OrderedSpan(s, i + 1, j);
    }
  }

  /** On sorted, non-overlapping raw intervals of positive length, the merge
      yields sorted, non-overlapping intervals of positive length, never more
      than it was given. */
  lemma MergeOrdered(segment: seq<Interval>, mergeMs: int, minMs: int, blankMs: int)
    requires Proper(segment) && Ordered(segment)
    ensures var r := Merge(segment, Some(mergeMs), minMs, blankMs);
      Proper(r) && Ordered(r) && |r| <= |segment|
  {
    var r := Merge(segment, Some(mergeMs), minMs, blankMs);
    var firsts, lasts := MergeProvenance(segment, mergeMs, minMs, blankMs);
    forall k | 0 <= k < |r|
      ensures r[k].start < r[k].end
    {
      if firsts[k] < lasts[k] {
        OrderedSpan(segment, firsts[k], lasts[k]);
      }
    }
    forall k | 0 <= k < |r| - 1
      ensures r[k].end <= r[k + 1].start
    {
      OrderedSpan(segment, lasts[k], firsts[k + 1]);
    }
  }

  /** With thresholds of 10 s, 2 s and 0.5 s, the raw intervals 0-1000,
      1200-2000 and 2100-9000 ms are all closer than 0.5 s, so they fold into
      the single interval 0-9000 ms. */
  lemma MergeExample()
    ensures Merge([Interval(0, 1000), Interval(1200, 2000), Interval(2100, 9000)], Some(10000), 2000, 500)
      == [Interval(0, 9000)]
  {
    var s := [Interval(0, 1000), Interval(1200, 2000), Interval(2100, 9000)];
    assert s[1..][1..] == [Interval(2100, 9000)];
    assert Fold([Interval(2100, 9000)], Interval(0, 2000), 10000, 2000, 500) == [Interval(0, 9000)];
  }
}
