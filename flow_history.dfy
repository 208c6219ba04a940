/** The audit trail of task-1/src/edmonds_karp.py: one record per
    augmentation, and what a well-formed trail promises. */
module FlowHistory {
  import opened Sums
  import opened FlowGraph

  /** One history entry (the dictionary appended at edmonds_karp.py:78). */
  datatype Step = Step(
    step: nat,
    path: seq<nat>,
    pathEdges: seq<(nat, nat)>,
    bottleneck: int,
    cumulativeFlow: int,
    residualSnapshot: Table)

  /** The residual table after the recorded steps: the last snapshot, or the
      initial table when nothing was recorded. */
  function ResidualAfter(init: Table, h: seq<Step>): Table
  {
    if |h| == 0 then init else h[|h| - 1].residualSnapshot
  }

  function CumulativeAfter(h: seq<Step>): int
  {
    if |h| == 0 then 0 else h[|h| - 1].cumulativeFlow
  }

  function TotalBottleneck(h: seq<Step>): int
  {
    if |h| == 0 then 0 else TotalBottleneck(h[..|h| - 1]) + h[|h| - 1].bottleneck
  }

  /** t' is t after pushing b units along path. */
  ghost predicate Pushed(t: Table, n: nat, path: seq<(nat, nat)>, b: int, t': Table)
    requires IsSquare(t, n)
  {
    IsSquare(t', n) && forall i, j :: 0 <= i < n && 0 <= j < n ==> t'[i][j] == t[i][j] + Delta(path, i, j, b)
  }

  /** A record that replays correctly from the residual table before it. */
  ghost predicate ValidStep(prev: Table, n: nat, s: nat, d: nat, st: Step, index: nat, prevCumulative: int)
  {
    && SimplePath(prev, n, s, d, st.pathEdges)
    && IsMinCap(prev, n, st.pathEdges, st.bottleneck)
    && st.bottleneck >= 1
    && st.step == index
    && st.path == PathNodes(st.pathEdges, d)
    && st.cumulativeFlow == prevCumulative + st.bottleneck
    && Pushed(prev, n, st.pathEdges, st.bottleneck, st.residualSnapshot)
  }

  /** Every record replays from the state its predecessors leave. */
  ghost predicate ValidHistory(init: Table, n: nat, s: nat, d: nat, h: seq<Step>)
    decreases |h|
  {
    if |h| == 0 then true
    else
      var p := h[..|h| - 1];
      ValidHistory(init, n, s, d, p) && ValidStep(ResidualAfter(init, p), n, s, d, h[|h| - 1], |h|, CumulativeAfter(p))
  }

  /** Appending a record that replays from the current table keeps the
      history valid; it becomes the last snapshot and cumulative flow. */
  lemma HistoryExtend(init: Table, n: nat, s: nat, d: nat, h: seq<Step>, st: Step)
    requires ValidHistory(init, n, s, d, h)
    requires ValidStep(ResidualAfter(init, h), n, s, d, st, |h| + 1, CumulativeAfter(h))
    ensures ValidHistory(init, n, s, d, h + [st])
    ensures ResidualAfter(init, h + [st]) == st.residualSnapshot
    ensures CumulativeAfter(h + [st]) == st.cumulativeFlow
  {
    assert (h + [st])[..|h|] == h;
  }

  /** The last cumulative flow is the sum of all bottlenecks. */
  lemma {:induction false} HistoryCumulative(init: Table, n: nat, s: nat, d: nat, h: seq<Step>)
    requires ValidHistory(init, n, s, d, h)
    ensures CumulativeAfter(h) == TotalBottleneck(h)
  {
    if |h| > 0 {
      HistoryCumulative(init, n, s, d, h[..|h| - 1]);
    }
  }

  /** Below the last index, dropping the last record changes neither the
      record at k nor the prefixes up to it. */
  lemma DropLast(h: seq<Step>, k: nat)
    requires k < |h|
    ensures h[..k] == h[..|h| - 1][..k]
    ensures k < |h| - 1 ==> h[k] == h[..|h| - 1][k] && h[..k + 1] == h[..|h| - 1][..k + 1]
  {
  }

  /** Record k replays from the residual table its predecessors leave. */
  lemma {:induction false} HistoryStepAt(init: Table, n: nat, s: nat, d: nat, h: seq<Step>, k: nat)
    requires ValidHistory(init, n, s, d, h) && k < |h|
    ensures ValidStep(ResidualAfter(init, h[..k]), n, s, d, h[k], k + 1, CumulativeAfter(h[..k]))
  {
    var p := h[..|h| - 1];
    if k < |h| - 1 {
      DropLast(h, k);
      HistoryStepAt(init, n, s, d, p, k);
    }
  }

  /** Record k carries the running sum of the bottlenecks up to it. */
  lemma {:induction false} HistoryRunningSum(init: Table, n: nat, s: nat, d: nat, h: seq<Step>, k: nat)
    requires ValidHistory(init, n, s, d, h) && k < |h|
    ensures h[k].cumulativeFlow == TotalBottleneck(h[..k + 1])
  {
    var p := h[..|h| - 1];
    if k == |h| - 1 {
      assert h[..k + 1] == h;
      HistoryCumulative(init, n, s, d, p);
    } else {
      DropLast(h, k);
      HistoryRunningSum(init, n, s, d, p, k);
    }
  }

  /** Every prefix of a valid history is valid. */
  lemma {:induction false} HistoryPrefix(init: Table, n: nat, s: nat, d: nat, h: seq<Step>, k: nat)
    requires ValidHistory(init, n, s, d, h) && k <= |h|
    ensures ValidHistory(init, n, s, d, h[..k])
  {
    if k < |h| {
      var p := h[..|h| - 1];
      DropLast(h, k);
      HistoryPrefix(init, n, s, d, p, k);
    } else {
      assert h[..k] == h;
    }
  }

  /** Steps are numbered 1, 2, ... in order, each bottleneck is at least 1 and
      each cumulative flow is the running sum of the bottlenecks. */
  lemma HistorySteps(init: Table, n: nat, s: nat, d: nat, h: seq<Step>)
    requires ValidHistory(init, n, s, d, h)
    ensures forall k :: 0 <= k < |h| ==> h[k].step == k + 1 && h[k].bottleneck >= 1
    ensures forall k :: 0 <= k < |h| ==> h[k].cumulativeFlow == TotalBottleneck(h[..k + 1])
  {
    forall k | 0 <= k < |h|
      ensures h[k].step == k + 1 && h[k].bottleneck >= 1
      ensures h[k].cumulativeFlow == TotalBottleneck(h[..k + 1])
    {
      HistoryStepAt(init, n, s, d, h, k);
      HistoryRunningSum(init, n, s, d, h, k);
    }
  }

  /** Cumulative flow strictly increases along the history. */
  lemma {:induction false} HistoryIncreasing(init: Table, n: nat, s: nat, d: nat, h: seq<Step>)
    requires ValidHistory(init, n, s, d, h)
    ensures forall i, j :: 0 <= i < j < |h| ==> h[i].cumulativeFlow < h[j].cumulativeFlow
  {
    if |h| > 1 {
      var p := h[..|h| - 1];
      HistoryIncreasing(init, n, s, d, p);
      forall i, j | 0 <= i < j < |h|
        ensures h[i].cumulativeFlow < h[j].cumulativeFlow
      {
        assert h[i] == p[i];
        if j < |p| {
          assert h[j] == p[j];
        } else {
          assert h[|p| - 1] == p[|p| - 1];
        }
      }
    }
  }

  /** Each record's node path starts at the source and ends at the sink, one
      node longer than its list of edges, and names no node twice. */
  lemma HistoryPaths(init: Table, n: nat, s: nat, d: nat, h: seq<Step>, k: nat)
    requires ValidHistory(init, n, s, d, h) && k < |h|
    ensures |h[k].path| == |h[k].pathEdges| + 1 >= 2
    ensures h[k].path[0] == s && h[k].path[|h[k].pathEdges|] == d
    ensures forall i, j :: 0 <= i < j < |h[k].path| ==> h[k].path[i] != h[k].path[j]
  {
    HistoryStepAt(init, n, s, d, h, k);
    var prev := ResidualAfter(init, h[..k]);
    SimplePathNodes(prev, n, s, d, h[k].pathEdges);
  }
}
