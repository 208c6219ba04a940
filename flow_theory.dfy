/** What the flow and residual tables of task-1/src/edmonds_karp.py keep
    invariant under augmentation, and the max-flow min-cut argument that the
    cut found by min_cut_from_residual on the final residual table has the
    capacity of the computed flow. */
module FlowTheory {
  import opened Sums
  import opened FlowGraph
  import opened FlowHistory

  /** The residual table plus the flow table gives back the initial table,
      flow is skew-symmetric, and no residual entry has been driven below both
      0 and its initial value. */
  ghost predicate Balanced(init: Table, n: nat, cap: Table, flow: Table)
  {
    && IsSquare(init, n) && IsSquare(cap, n) && IsSquare(flow, n)
    && (forall i, j :: 0 <= i < n && 0 <= j < n ==> cap[i][j] + flow[i][j] == init[i][j])
    && Skew(flow, n)
    && (forall i, j :: 0 <= i < n && 0 <= j < n ==> cap[i][j] >= 0 || cap[i][j] >= init[i][j])
  }

  /** Net flow out of every node: value at the source, -value at the sink, 0 elsewhere. */
  ghost predicate NetOut(flow: Table, n: nat, s: nat, d: nat, value: int)
    requires IsSquare(flow, n)
  {
    forall x :: 0 <= x < n ==> Sum(flow[x]) == if x == s then value else if x == d then -value else 0
  }

  /** A simple path never uses a pair in both directions. */
  lemma SimplePathOneWay(t: Table, n: nat, s: nat, d: nat, path: seq<(nat, nat)>, i: nat, j: nat)
    requires SimplePath(t, n, s, d, path)
    ensures !((i, j) in path && (j, i) in path)
  {
    if (i, j) in path && (j, i) in path {
      var a :| 0 <= a < |path| && path[a] == (i, j);
      var b :| 0 <= b < |path| && path[b] == (j, i);
      if a < b {
        SimplePathPairs(t, n, s, d, path, a, b);
      } else if b < a {
        SimplePathPairs(t, n, s, d, path, b, a);
      } else {
        SimplePathNoLoop(t, n, s, d, path, a);
      }
    }
  }

  /** Pushing the bottleneck of a simple path keeps the tables balanced;
      in particular every residual capacity on the path stays >= 0. */
  lemma AugmentBalanced(init: Table, n: nat, s: nat, d: nat, cap: Table, flow: Table,
                        path: seq<(nat, nat)>, b: int, cap': Table, flow': Table)
    requires Balanced(init, n, cap, flow)
    requires SimplePath(cap, n, s, d, path) && IsMinCap(cap, n, path, b) && b >= 1
    requires Pushed(cap, n, path, b, cap')
    requires IsSquare(flow', n)
    requires forall i, j :: 0 <= i < n && 0 <= j < n ==> flow'[i][j] == flow[i][j] - Delta(path, i, j, b)
    ensures Balanced(init, n, cap', flow')
    ensures forall k :: 0 <= k < |path| ==> cap'[path[k].0][path[k].1] >= 0
  {
    forall i, j | 0 <= i < n && 0 <= j < n
      ensures cap'[i][j] >= 0 || cap'[i][j] >= init[i][j]
      ensures (i, j) in path ==> cap'[i][j] >= 0
    {
      SimplePathOneWay(cap, n, s, d, path, i, j);
      if (i, j) in path {
        var k :| 0 <= k < |path| && path[k] == (i, j);
        assert b <= cap[path[k].0][path[k].1];
      }
    }
    forall k | 0 <= k < |path|
      ensures cap'[path[k].0][path[k].1] >= 0
    {
      assert path[k] in path;
    }
  }

  /** In balanced tables the residual capacities of a pair and its reverse
      add up to their initial capacities, so augmenting, which keeps the
      tables balanced, only moves capacity between the two directions. */
  lemma BalancedPairSum(init: Table, n: nat, cap: Table, flow: Table)
    requires Balanced(init, n, cap, flow)
    ensures forall i, j :: 0 <= i < n && 0 <= j < n ==> cap[i][j] + cap[j][i] == init[i][j] + init[j][i]
  {
  }

  /** Pushing b along a simple path only lowers the source's entry toward the
      path's first node, so the positive capacity out of the source drops by b. */
  lemma AugmentSourceRow(n: nat, s: nat, d: nat, cap: Table, path: seq<(nat, nat)>, b: int, cap': Table)
    requires SimplePath(cap, n, s, d, path) && IsMinCap(cap, n, path, b) && b >= 1
    requires Pushed(cap, n, path, b, cap')
    ensures SumPos(cap'[s]) == SumPos(cap[s]) - b
  {
    var j0 := path[0].1;
    var row := cap[s][j0 := cap[s][j0] - b];
    forall j | 0 <= j < n
      ensures cap'[s][j] == row[j]
    {
      SimplePathSource(cap, n, s, d, path, j);
    }
    assert cap'[s] == row;
    SumPosDecrease(cap[s], j0, b);
  }

  // ---------------------------------------------------------------------
  // Cuts

  /** The node labels 0..n-1 as a set. */
  function NodeSet(n: nat): (r: set<nat>)
    ensures forall v: nat :: v in r <==> v < n
  {
    if n == 0 then {} else NodeSet(n - 1) + {n - 1}
  }

  /** The entries of t from rows in S to columns in T; 0 elsewhere. */
  function Mask(t: Table, n: nat, S: set<nat>, T: set<nat>): (m: Table)
    requires IsSquare(t, n)
    ensures IsSquare(m, n)
    ensures forall i, j :: 0 <= i < n && 0 <= j < n ==> m[i][j] == if i in S && j in T then t[i][j] else 0
  {
    seq(n, i requires 0 <= i < n => seq(n, j requires 0 <= j < n => if i in S && j in T then t[i][j] else 0))
  }

  /** The capacity dictionary as an n-by-n table (missing pairs read as 0). */
  function CapTable(oc: map<(nat, nat), int>, n: nat): (t: Table)
    ensures IsSquare(t, n)
    ensures forall i, j :: 0 <= i < n && 0 <= j < n ==> t[i][j] == CapOf(oc, i, j)
  {
    seq(n, i requires 0 <= i < n => seq(n, j requires 0 <= j < n => CapOf(oc, i, j)))
  }

  /** Sum of the dictionary's capacities over pairs from S to T. */
  function CutCapacity(oc: map<(nat, nat), int>, n: nat, S: set<nat>, T: set<nat>): int
  {
    Total(Mask(CapTable(oc, n), n, S, T), n)
  }

  lemma MaskedRow(flow: Table, n: nat, S: set<nat>, i: nat)
    requires IsSquare(flow, n) && i < n
    ensures Sum(Mask(flow, n, S, NodeSet(n))[i][..n]) == if i in S then Sum(flow[i]) else 0
  {
    var r := Mask(flow, n, S, NodeSet(n))[i];
    assert r[..n] == r;
    if i in S {
      forall j | 0 <= j < n
        ensures r[j] == flow[i][j]
      {
        assert j in NodeSet(n);
      }
      assert r == flow[i];
    } else {
      SumOfZeros(r);
    }
  }

  lemma {:induction false} SourceSideOutflow(flow: Table, n: nat, s: nat, d: nat, value: int, S: set<nat>, m: nat)
    requires IsSquare(flow, n) && NetOut(flow, n, s, d, value) && s in S && (d in S ==> value == 0) && m <= n
    ensures RowsSum(Mask(flow, n, S, NodeSet(n)), m, n) == if s < m then value else 0
  {
    if m > 0 {
      SourceSideOutflow(flow, n, s, d, value, S, m - 1);
      MaskedRow(flow, n, S, m - 1);
    }
  }

  /** On pairs leaving a closed S the residual capacity is exhausted, so the
      flow there equals the original capacity. */
  lemma CutFlowIsCapacity(n: nat, edges: seq<Edge>, cap: Table, flow: Table, S: set<nat>)
    requires EdgesWithin(edges, n) && NonNegative(edges) && NoParallelEdges(edges)
    requires Balanced(InitialCapacity(n, edges), n, cap, flow) && Closed(cap, n, S)
    ensures Mask(flow, n, S, NodeSet(n) - S) == Mask(CapTable(OriginalCaps(edges), n), n, S, NodeSet(n) - S)
  {
    var C := Mask(flow, n, S, NodeSet(n) - S);
    var M := Mask(CapTable(OriginalCaps(edges), n), n, S, NodeSet(n) - S);
    InitialCapacityNonNegative(n, edges);
    forall i | 0 <= i < n
      ensures C[i] == M[i]
    {
      forall j | 0 <= j < n
        ensures C[i][j] == M[i][j]
      {
        if i in S && j !in S {
          InitialCapacityIsParallelSum(n, edges, i, j);
          NoParallelCapOf(edges, i, j);
        }
      }
    }
  }

  /** The rows of S split into the part inside S and the part leaving S. */
  lemma MaskSplit(flow: Table, n: nat, S: set<nat>)
    requires IsSquare(flow, n)
    ensures Total(Mask(flow, n, S, NodeSet(n)), n) == Total(Mask(flow, n, S, S), n) + Total(Mask(flow, n, S, NodeSet(n) - S), n)
  {
    var all := NodeSet(n);
    var A := Mask(flow, n, S, all);
    var B := Mask(flow, n, S, S);
    var C := Mask(flow, n, S, all - S);
    forall i, j | 0 <= i < n && 0 <= j < n
      ensures A[i][j] == B[i][j] + C[i][j]
    {
      assert j in all;
    }
    TotalPointwise(B, C, A, n);
  }

  /** Flow inside S cancels out. */
  lemma InsideZero(flow: Table, n: nat, S: set<nat>)
    requires IsSquare(flow, n) && Skew(flow, n)
    ensures Total(Mask(flow, n, S, S), n) == 0
  {
    var B := Mask(flow, n, S, S);
    assert Skew(B, n);
    SkewTotalZero(B, n);
  }

  /** Flow inside S cancels out, so the flow leaving S is the net outflow of S. */
  lemma CutFlowIsValue(n: nat, s: nat, d: nat, flow: Table, value: int, S: set<nat>)
    requires IsSquare(flow, n) && Skew(flow, n) && NetOut(flow, n, s, d, value)
    requires s < n && s in S && (d in S ==> value == 0)
    ensures Total(Mask(flow, n, S, NodeSet(n) - S), n) == value
  {
    MaskSplit(flow, n, S);
    InsideZero(flow, n, S);
    SourceSideOutflow(flow, n, s, d, value, S, n);
  }

  /** Max-flow min-cut: when no positive residual edge leaves a set S that holds
      the source (and holds the sink only if the flow is 0), the original
      capacity from S to the rest equals the value of the flow. */
  lemma MaxFlowMinCut(n: nat, edges: seq<Edge>, s: nat, d: nat, cap: Table, flow: Table, value: int, S: set<nat>)
    requires EdgesWithin(edges, n) && NonNegative(edges) && NoParallelEdges(edges)
    requires Balanced(InitialCapacity(n, edges), n, cap, flow) && NetOut(flow, n, s, d, value)
    requires s < n && s in S && (d in S ==> value == 0) && Closed(cap, n, S)
    ensures CutCapacity(OriginalCaps(edges), n, S, NodeSet(n) - S) == value
  {
    CutFlowIsCapacity(n, edges, cap, flow, S);
    CutFlowIsValue(n, s, d, flow, value, S);
  }

  /** With non-negative capacities the flow on every pair is at most its
      initial capacity, and it is non-negative on a pair whose reverse had no
      capacity. */
  lemma FlowWithinCapacity(n: nat, edges: seq<Edge>, cap: Table, flow: Table)
    requires EdgesWithin(edges, n) && NonNegative(edges)
    requires Balanced(InitialCapacity(n, edges), n, cap, flow)
    ensures forall i, j :: 0 <= i < n && 0 <= j < n ==> cap[i][j] >= 0 && flow[i][j] <= InitialCapacity(n, edges)[i][j]
    ensures forall i, j :: 0 <= i < n && 0 <= j < n && InitialCapacity(n, edges)[j][i] == 0 ==> flow[i][j] >= 0
  {
    InitialCapacityNonNegative(n, edges);
  }
}
