/**
 `groupByThreshold` of src/index.ts: sort by a numeric key, then cut the
 sorted sequence into runs, opening a new run whenever an element's key is
 `threshold` or more above the key of the element that opened the current run.
 */
module Grouping {
  import opened Seqs
  import opened ArraySort

  /** Every element after the first of `g` lies strictly less than `threshold` above the first. */
  predicate WithinThreshold<T>(g: seq<T>, key: T -> real, threshold: real)
  {
    forall j :: 0 < j < |g| ==> key(g[j]) - key(g[0]) < threshold
  }

  /** The loop state of `groupByThreshold` is consistent: the current run's key is the key
      of its first element, or, while the run is still empty, of the next element. */
  predicate RunStart<T>(xs: seq<T>, key: T -> real, group: seq<T>, groupKey: real)
  {
    if |group| == 0 then |xs| > 0 && key(xs[0]) == groupKey else key(group[0]) == groupKey
  }

  /** The loop of `groupByThreshold` from the state (`group`, `groupKey`) over the remaining
      `xs`. It yields at least one run and at most one more run than there are elements
      left; the open run is extended, never dropped, and only runs it closes are
      non-empty from the start. */
  function Cut<T>(xs: seq<T>, key: T -> real, threshold: real, group: seq<T>, groupKey: real): (gs: seq<seq<T>>)
    ensures 1 <= |gs| <= |xs| + 1
    ensures |group| <= |gs[0]| && gs[0][..|group|] == group
    ensures forall i :: 0 < i < |gs| ==> |gs[i]| > 0
    decreases |xs|
  {
    if |xs| == 0 then [group]
    else if key(xs[0]) - groupKey < threshold then Cut(xs[1..], key, threshold, group + [xs[0]], groupKey)
    else [group] + Cut(xs[1..], key, threshold, [xs[0]], key(xs[0]))
  }

  /** `groupByThreshold(array, key, threshold)`: the runs concatenate to the input sorted
      by key; a run's keys stay strictly within `threshold` of its first key; each run
      starts at least `threshold` above the start of the run before it. Every run is
      non-empty except that a non-positive threshold makes the first run empty. */
  function GroupByThreshold<T>(elements: seq<T>, key: T -> real, threshold: real): (groups: seq<seq<T>>)
    ensures |groups| == 0 <==> |elements| == 0
    ensures Flatten(groups) == SortByKey(elements, key)
    ensures |elements| > 0 ==> (|groups[0]| > 0 <==> 0.0 < threshold)
    ensures forall i :: 0 < i < |groups| ==> |groups[i]| > 0
    ensures forall i :: 0 <= i < |groups| ==> WithinThreshold(groups[i], key, threshold)
    ensures forall i :: 0 <= i < |groups| - 1 && |groups[i]| > 0 ==>
      key(groups[i + 1][0]) - key(groups[i][0]) >= threshold
  {
    if |elements| == 0 then []
    else
      var sorted := SortByKey(elements, key);
      CutShape(sorted, key, threshold, [], key(sorted[0]));
      CutFlatten(sorted, key, threshold, [], key(sorted[0]));
      Cut(sorted, key, threshold, [], key(sorted[0]))
  }

  /** Runs that are non-empty, each within `threshold` of its first key, and that start
      at least `threshold` apart. */
  predicate ThresholdRuns<T>(gs: seq<seq<T>>, key: T -> real, threshold: real)
  {
    && (forall i :: 0 <= i < |gs| ==> |gs[i]| > 0 && WithinThreshold(gs[i], key, threshold))
    && (forall i :: 0 <= i < |gs| - 1 ==> key(gs[i + 1][0]) - key(gs[i][0]) >= threshold)
  }

  /** For a positive threshold there is only one way to cut the sorted input into such
      runs, and `GroupByThreshold` is it. */
  lemma GroupingUnique<T>(elements: seq<T>, key: T -> real, threshold: real, gs: seq<seq<T>>)
    requires 0.0 < threshold
    requires ThresholdRuns(gs, key, threshold)
    requires Flatten(gs) == SortByKey(elements, key)
    ensures gs == GroupByThreshold(elements, key, threshold)
  {
    var sorted := SortByKey(elements, key);
    if |elements| == 0 {
      FlattenHead(gs);
    } else {
      assert |gs| > 0;
      assert gs[0][..1] == [sorted[0]];
      assert [sorted[0]] + sorted[1..] == sorted;
      CutUnique(sorted[1..], key, threshold, [sorted[0]], gs);
      assert [] + [sorted[0]] == [sorted[0]];
      assert Cut(sorted, key, threshold, [], key(sorted[0]))
          == Cut(sorted[1..], key, threshold, [sorted[0]], key(sorted[0]));
    }
  }

  /** The loop, resumed with a non-empty current run `group`, rebuilds any cut into
      threshold runs whose first run extends `group`. */
  lemma {:induction false} CutUnique<T>(xs: seq<T>, key: T -> real, threshold: real, group: seq<T>, gs: seq<seq<T>>)
    requires |group| > 0
    requires ThresholdRuns(gs, key, threshold)
    requires |gs| > 0 && |group| <= |gs[0]| && gs[0][..|group|] == group
    requires Flatten(gs) == group + xs
    ensures Cut(xs, key, threshold, group, key(group[0])) == gs
    decreases |xs|
  {
    var rest := Flatten(gs[1..]);
    assert Flatten(gs) == gs[0] + rest;
    if |xs| == 0 {
      assert |gs[0]| + |rest| == |group|;
      FlattenHead(gs[1..]);
      assert gs[0] == group;
    } else if |gs[0]| > |group| {
      assert gs[0][|group|] == (group + xs)[|group|] == xs[0];
      assert gs[0][..|group| + 1] == group + [xs[0]];
      assert key(xs[0]) - key(group[0]) < threshold;
      assert group + [xs[0]] + xs[1..] == group + xs;
      CutUnique(xs[1..], key, threshold, group + [xs[0]], gs);
    } else {
      assert gs[0] == group;
      assert |gs| > 1;
      assert (gs[0] + rest)[|group|..] == rest;
      assert (group + xs)[|group|..] == xs;
      assert gs[1][0] == xs[0];
      assert gs[1][..1] == [xs[0]];
      assert [xs[0]] + xs[1..] == xs;
      var tail := gs[1..];
      assert ThresholdRuns(tail, key, threshold) by {
        forall i | 0 <= i < |tail| - 1 ensures key(tail[i + 1][0]) - key(tail[i][0]) >= threshold {
          assert tail[i] == gs[i + 1] && tail[i + 1] == gs[i + 2];
        }
      }
      CutUnique(xs[1..], key, threshold, [xs[0]], tail);
      assert gs == [group] + tail;
    }
  }

  /** The runs, concatenated, give back the current run followed by the remaining elements. */
  lemma {:induction false} CutFlatten<T>(xs: seq<T>, key: T -> real, threshold: real, group: seq<T>, groupKey: real)
    ensures Flatten(Cut(xs, key, threshold, group, groupKey)) == group + xs
    decreases |xs|
  {
    if |xs| == 0 {
      assert Flatten([group]) == group + Flatten([]);
    } else if key(xs[0]) - groupKey < threshold {
      CutFlatten(xs[1..], key, threshold, group + [xs[0]], groupKey);
      assert group + [xs[0]] + xs[1..] == group + xs;
    } else {
      var rest := Cut(xs[1..], key, threshold, [xs[0]], key(xs[0]));
      CutFlatten(xs[1..], key, threshold, [xs[0]], key(xs[0]));
      assert ([group] + rest)[1..] == rest;
      assert [xs[0]] + xs[1..] == xs;
    }
  }

  /** The shape of the runs produced from a consistent loop state. */
  lemma {:induction false} CutShape<T>(xs: seq<T>, key: T -> real, threshold: real, group: seq<T>, groupKey: real)
    requires RunStart(xs, key, group, groupKey)
    requires WithinThreshold(group, key, threshold)
    ensures var gs := Cut(xs, key, threshold, group, groupKey);
      && |gs| >= 1
      && (|group| > 0 ==> |gs[0]| > 0 && gs[0][0] == group[0])
      && (|group| == 0 ==> (|gs[0]| > 0 <==> 0.0 < threshold))
      && (|gs| > 1 ==> |gs[1]| > 0 && key(gs[1][0]) - groupKey >= threshold)
      && (forall i :: 0 < i < |gs| ==> |gs[i]| > 0)
      && (forall i :: 0 <= i < |gs| ==> WithinThreshold(gs[i], key, threshold))
      && (forall i :: 0 <= i < |gs| - 1 && |gs[i]| > 0 ==> key(gs[i + 1][0]) - key(gs[i][0]) >= threshold)
    decreases |xs|
  {
    if |xs| == 0 {
    } else if key(xs[0]) - groupKey < threshold {
      CutShape(xs[1..], key, threshold, group + [xs[0]], groupKey);
    } else {
      CutShape(xs[1..], key, threshold, [xs[0]], key(xs[0]));
      var rest := Cut(xs[1..], key, threshold, [xs[0]], key(xs[0]));
      var gs := [group] + rest;
      assert gs == Cut(xs, key, threshold, group, groupKey);
      forall i | 0 <= i < |gs| - 1 && |gs[i]| > 0
        ensures key(gs[i + 1][0]) - key(gs[i][0]) >= threshold
      {
        if i > 0 {
          assert gs[i] == rest[i - 1] && gs[i + 1] == rest[i];
        }
      }
    }
  }
}
