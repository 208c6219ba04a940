/** min_cut_from_residual (task-1/src/edmonds_karp.py:86-111): the source
    side of a cut read off a residual table, the original edges crossing it
    and their total capacity; and the driver at lines 157-178 that runs the
    max-flow computation and then reads the cut off its last residual table. */
module MinCut {
  import opened Sums
  import opened FlowGraph
  import opened FlowHistory
  import opened FlowTheory
  import opened EdmondsKarp

  /** Sum of the capacities of a list of edges. */
  function CapSum(es: seq<Edge>): int
  {
    if |es| == 0 then 0 else CapSum(es[..|es| - 1]) + es[|es| - 1].c
  }

  /** The search for the source side between two dequeues: everything seen
      is reachable, and every positive residual successor of a visited node
      is visited or queued. */
  ghost predicate SideSearch(residual: Table, n: nat, source: nat, visited: set<nat>, q: seq<nat>)
    requires IsSquare(residual, n)
  {
    && (forall v :: v in visited ==> v < n && Reachable(residual, n, source, v))
    && (forall i :: 0 <= i < |q| ==> q[i] < n && Reachable(residual, n, source, q[i]))
    && (source in visited || source in q)
    && (forall u, v :: u in visited && 0 <= v < n && residual[u][v] > 0 ==> v in visited || v in q)
  }

  lemma SideSearchPop(residual: Table, n: nat, source: nat, visited: set<nat>, q: seq<nat>)
    requires IsSquare(residual, n) && SideSearch(residual, n, source, visited, q) && q != []
    ensures forall v :: v in q ==> v == q[0] || v in q[1..]
    ensures q[0] < n && Reachable(residual, n, source, q[0])
    ensures forall i :: 0 <= i < |q| - 1 ==> q[1..][i] < n && Reachable(residual, n, source, q[1..][i])
  {
    forall v | v in q
      ensures v == q[0] || v in q[1..]
    {
      var i :| 0 <= i < |q| && q[i] == v;
      if i > 0 {
        assert q[1..][i - 1] == v;
      }
    }
  }

  /** Lines 98-100: append, in increasing order, every node that u reaches
      over a positive residual entry and that is not visited. */
  method EnqueueSuccessors(residual: Table, n: nat, u: nat, visited: set<nat>, q: seq<nat>) returns (q': seq<nat>)
    requires IsSquare(residual, n) && u < n
    ensures |q| <= |q'| && q'[..|q|] == q
    ensures forall i :: |q| <= i < |q'| ==> q'[i] < n && residual[u][q'[i]] > 0 && q'[i] !in visited
    ensures forall w :: 0 <= w < n && residual[u][w] > 0 && w !in visited ==> w in q'[|q|..]
  {
    q' := q;
    for v := 0 to n
      invariant |q| <= |q'| && q'[..|q|] == q
      invariant forall i :: |q| <= i < |q'| ==> q'[i] < v && residual[u][q'[i]] > 0 && q'[i] !in visited
      invariant forall w :: 0 <= w < v && residual[u][w] > 0 && w !in visited ==> w in q'[|q|..]
    {
      if residual[u][v] > 0 && v !in visited {
        assert (q' + [v])[..|q|] == q'[..|q|];
        assert (q' + [v])[|q|..] == q'[|q|..] + [v];
        q' := q' + [v];
      }
    }
  }

  /** Expanding u after popping it keeps the search invariant. */
  lemma SideSearchPush(residual: Table, n: nat, source: nat, visited: set<nat>, u: nat, q: seq<nat>, q': seq<nat>)
    requires IsSquare(residual, n) && u < n && Reachable(residual, n, source, u)
    requires forall v :: v in visited ==> v < n && Reachable(residual, n, source, v)
    requires forall i :: 0 <= i < |q| ==> q[i] < n && Reachable(residual, n, source, q[i])
    requires source in visited || source == u || source in q
    requires forall a, w :: a in visited && 0 <= w < n && residual[a][w] > 0 ==> w in visited || w == u || w in q
    requires |q| <= |q'| && q'[..|q|] == q
    requires forall i :: |q| <= i < |q'| ==> q'[i] < n && residual[u][q'[i]] > 0
    requires forall w :: 0 <= w < n && residual[u][w] > 0 && w !in visited + {u} ==> w in q'[|q|..]
    ensures SideSearch(residual, n, source, visited + {u}, q')
  {
    forall i | 0 <= i < |q'|
      ensures q'[i] < n && Reachable(residual, n, source, q'[i])
    {
      if i < |q| {
        assert q'[i] == q'[..|q|][i];
      } else {
        ReachableStep(residual, n, source, u, q'[i]);
      }
    }
    forall w | w in q
      ensures w in q'
    {
      var i :| 0 <= i < |q| && q[i] == w;
      assert q'[..|q|][i] == w;
    }
    forall w | w in q'[|q|..]
      ensures w in q'
    {
      var i :| 0 <= i < |q'[|q|..]| && q'[|q|..][i] == w;
      assert q'[|q| + i] == w;
    }
  }

  /** Lines 91-100: breadth-first search from the source over positive
      residual entries; a node is expanded the first time it is dequeued. */
  method SourceSide(residual: Table, n: nat, source: nat) returns (visited: set<nat>)
    requires IsSquare(residual, n) && source < n
    ensures source in visited && Closed(residual, n, visited)
    ensures forall v: nat :: v in visited <==> Reachable(residual, n, source, v)
  {
    visited := {};
    var q: seq<nat> := [source];
    ReachableSelf(residual, n, source);
    while q != []
      invariant SideSearch(residual, n, source, visited, q)
      decreases NodeSet(n) - visited, |q|
    {
      SideSearchPop(residual, n, source, visited, q);
      var u := q[0];
      q := q[1..];
      if u in visited {
        continue;
      }
      ghost var visited0, q0 := visited, q;
      visited := visited + {u};
      q := EnqueueSuccessors(residual, n, u, visited, q);
      SideSearchPush(residual, n, source, visited0, u, q0, q);
    }
    forall v: nat | Reachable(residual, n, source, v)
      ensures v in visited
    {
      ClosedContainsReachable(residual, n, visited, source, v);
    }
  }

  /** The cut edges: exactly the dictionary's pairs from S to T, each with the
      dictionary's capacity. */
  ghost predicate CutEdgesSound(cut: seq<Edge>, S: set<nat>, T: set<nat>, oc: map<(nat, nat), int>)
  {
    forall e :: e in cut ==> e.u in S && e.v in T && (e.u, e.v) in oc && e.c == oc[(e.u, e.v)]
  }

  /** Lines 107-110 for one row u of the source side: the dictionary's pairs
      from u into T become cut edges, in ascending order of v. */
  lemma CapSumAppend(es: seq<Edge>, e: Edge)
    ensures CapSum(es + [e]) == CapSum(es) + e.c
  {
    assert (es + [e])[..|es|] == es;
  }

  /** The capacities from u into T, 0 where the dictionary has no pair. */
  ghost predicate CutRowOf(row: seq<int>, n: nat, oc: map<(nat, nat), int>, T: set<nat>, u: nat)
  {
    |row| == n && forall j :: 0 <= j < n ==> row[j] == if j in T then CapOf(oc, u, j) else 0
  }

  method CutRow(n: nat, oc: map<(nat, nat), int>, S: set<nat>, T: set<nat>, u: nat, cut: seq<Edge>, capSum: int,
                ghost row: seq<int>)
    returns (cut': seq<Edge>, capSum': int)
    requires u in S && u < n && forall v :: v in T ==> v < n
    requires CutRowOf(row, n, oc, T, u)
    requires capSum == CapSum(cut) && CutEdgesSound(cut, S, T, oc)
    ensures capSum' == CapSum(cut') == capSum + Sum(row)
    ensures CutEdgesSound(cut', S, T, oc)
    ensures |cut| <= |cut'| && cut'[..|cut|] == cut
    ensures forall b :: b in T && (u, b) in oc ==> Edge(u, b, oc[(u, b)]) in cut'
  {
    cut', capSum' := cut, capSum;
    for v := 0 to n
      invariant capSum' == CapSum(cut') == capSum + Sum(row[..v])
      invariant CutEdgesSound(cut', S, T, oc)
      invariant |cut| <= |cut'| && cut'[..|cut|] == cut
      invariant forall b :: 0 <= b < v && b in T && (u, b) in oc ==> Edge(u, b, oc[(u, b)]) in cut'
    {
      SumPrefixStep(row, v);
      if v in T && (u, v) in oc {
        CapSumAppend(cut', Edge(u, v, oc[(u, v)]));
        cut' := cut' + [Edge(u, v, oc[(u, v)])];
        capSum' := capSum' + oc[(u, v)];
      }
    }
    assert row[..n] == row;
  }

  lemma MaskRowOf(oc: map<(nat, nat), int>, n: nat, S: set<nat>, T: set<nat>, u: nat)
    requires u < n
    ensures u in S ==> CutRowOf(Mask(CapTable(oc, n), n, S, T)[u], n, oc, T, u)
    ensures u !in S ==> Sum(Mask(CapTable(oc, n), n, S, T)[u]) == 0
  {
    var row := Mask(CapTable(oc, n), n, S, T)[u];
    if u !in S {
      SumOfZeros(row);
    }
  }

  /** Every dictionary pair from rows below u of S into T is a cut edge. */
  ghost predicate CoversRows(cut: seq<Edge>, S: set<nat>, T: set<nat>, oc: map<(nat, nat), int>, u: nat)
  {
    forall a, b :: 0 <= a < u && a in S && b in T && (a, b) in oc ==> Edge(a, b, oc[(a, b)]) in cut
  }

  lemma CoversRowsStep(cut0: seq<Edge>, cut: seq<Edge>, S: set<nat>, T: set<nat>, oc: map<(nat, nat), int>, u: nat)
    requires CoversRows(cut0, S, T, oc, u)
    requires |cut0| <= |cut| && cut[..|cut0|] == cut0
    requires u in S ==> forall b :: b in T && (u, b) in oc ==> Edge(u, b, oc[(u, b)]) in cut
    ensures CoversRows(cut, S, T, oc, u + 1)
  {
    forall a, b | 0 <= a < u + 1 && a in S && b in T && (a, b) in oc
      ensures Edge(a, b, oc[(a, b)]) in cut
    {
      if a < u {
        var i :| 0 <= i < |cut0| && cut0[i] == Edge(a, b, oc[(a, b)]);
        assert cut[i] == cut0[i];
      }
    }
  }

  lemma RowsSumNext(M: Table, n: nat, u: nat)
    requires IsSquare(M, n) && u < n
    ensures RowsSum(M, u + 1, n) == RowsSum(M, u, n) + Sum(M[u])
  {
    assert M[u][..n] == M[u];
  }

  /** Lines 103-110: every pair from S to T that the dictionary holds is a
      cut edge, and its capacity is added to the sum. Rows are scanned in
      ascending order. */
  method CutEdges(n: nat, oc: map<(nat, nat), int>, S: set<nat>, T: set<nat>) returns (cut: seq<Edge>, capSum: int)
    requires forall v :: v in S ==> v < n
    requires forall v :: v in T ==> v < n
    ensures CutEdgesSound(cut, S, T, oc)
    ensures forall u, v :: u in S && v in T && (u, v) in oc ==> Edge(u, v, oc[(u, v)]) in cut
    ensures capSum == CapSum(cut) == Total(Mask(CapTable(oc, n), n, S, T), n)
  {
    cut := [];
    capSum := 0;
    ghost var M := Mask(CapTable(oc, n), n, S, T);
    for u := 0 to n
      invariant capSum == RowsSum(M, u, n) && capSum == CapSum(cut)
      invariant CutEdgesSound(cut, S, T, oc)
      invariant CoversRows(cut, S, T, oc, u)
    {
      RowsSumNext(M, n, u);
      MaskRowOf(oc, n, S, T, u);
      ghost var cut0 := cut;
      if u in S {
        cut, capSum := CutRow(n, oc, S, T, u, cut, capSum, M[u]);
      }
      CoversRowsStep(cut0, cut, S, T, oc, u);
    }
    assert CoversRows(cut, S, T, oc, n);
  }

  /** min_cut_from_residual (lines 86-111). */
  method MinCutFromResidual(n: nat, edges: seq<Edge>, source: nat, residual: Table)
    returns (S: set<nat>, T: set<nat>, cutEdges: seq<Edge>, capSum: int)
    requires IsSquare(residual, n) && source < n
    ensures forall v: nat :: v in S <==> Reachable(residual, n, source, v)
    ensures source in S && Closed(residual, n, S)
    ensures T == NodeSet(n) - S
    ensures CutEdgesSound(cutEdges, S, T, OriginalCaps(edges))
    ensures forall u, v :: u in S && v in T && (u, v) in OriginalCaps(edges) ==>
              Edge(u, v, OriginalCaps(edges)[(u, v)]) in cutEdges
    ensures capSum == CapSum(cutEdges) == CutCapacity(OriginalCaps(edges), n, S, T)
  {
    S := SourceSide(residual, n, source);
    T := NodeSet(n) - S;
    var originalCaps := OriginalCaps(edges);
    cutEdges, capSum := CutEdges(n, originalCaps, S, T);
  }

  /** The driver (lines 157-178) with the fallback of line 176 corrected:
      the maximum flow and the minimum cut of the same network. With
      non-negative capacities and no parallel edges the cut capacity equals
      the maximum flow. */
  method MaxFlowAndMinCut(n: nat, edges: seq<Edge>, source: nat, sink: nat)
    returns (maxFlow: int, S: set<nat>, T: set<nat>, cutEdges: seq<Edge>, cutCapacity: int)
    requires EdgesWithin(edges, n) && source < n
    ensures source in S && T == NodeSet(n) - S && (sink != source ==> sink !in S)
    ensures CutEdgesSound(cutEdges, S, T, OriginalCaps(edges))
    ensures cutCapacity == CapSum(cutEdges) == CutCapacity(OriginalCaps(edges), n, S, T)
    ensures NonNegative(edges) && NoParallelEdges(edges) ==> cutCapacity == maxFlow
  {
    var flow, history;
    maxFlow, flow, history := EdmondsKarp.EdmondsKarp(n, edges, source, sink);
    // line 176, corrected: the last snapshot, or the initial table when
    // nothing was augmented
    var residual := ResidualAfter(InitialCapacity(n, edges), history);
    S, T, cutEdges, cutCapacity := MinCutFromResidual(n, edges, source, residual);
    if NonNegative(edges) && NoParallelEdges(edges) {
      MaxFlowMinCut(n, edges, source, sink, residual, flow, maxFlow, S);
    }
  }

  /** Line 176 as written: with an empty history the driver falls back to a
      table with no entries, in which nothing has positive capacity. */
  function MainResidualAsWritten(n: nat, edges: seq<Edge>, history: seq<Step>): Table
  {
    if |history| > 0 then history[|history| - 1].residualSnapshot else ZeroTable(n)
  }

  /** Three nodes, one edge 0 -> 1 of capacity 5, source 0, sink 2: the sink
      is unreachable, so no augmentation happens and the maximum flow is 0.
      The as-written fallback puts only the source on the source side and
      reports a cut of capacity 5; the initial residual table gives the
      source side {0, 1} and a cut of capacity 0. */
  lemma EmptyHistoryFallback()
    ensures !Reachable(InitialCapacity(3, [Edge(0, 1, 5)]), 3, 0, 2)
    ensures forall v: nat :: Reachable(MainResidualAsWritten(3, [Edge(0, 1, 5)], []), 3, 0, v) <==> v == 0
    ensures CutCapacity(OriginalCaps([Edge(0, 1, 5)]), 3, {0}, NodeSet(3) - {0}) == 5
    ensures forall v: nat :: Reachable(ResidualAfter(InitialCapacity(3, [Edge(0, 1, 5)]), []), 3, 0, v) <==> v < 2
    ensures CutCapacity(OriginalCaps([Edge(0, 1, 5)]), 3, {0, 1}, NodeSet(3) - {0, 1}) == 0
  {
    FallbackReachability();
    FallbackCuts();
  }

  lemma FallbackReachability()
    ensures !Reachable(InitialCapacity(3, [Edge(0, 1, 5)]), 3, 0, 2)
    ensures forall v: nat :: Reachable(MainResidualAsWritten(3, [Edge(0, 1, 5)], []), 3, 0, v) <==> v == 0
    ensures forall v: nat :: Reachable(ResidualAfter(InitialCapacity(3, [Edge(0, 1, 5)]), []), 3, 0, v) <==> v < 2
  {
    var es := [Edge(0, 1, 5)];
    assert es[..0] == [];
    var init := InitialCapacity(3, es);
    assert forall i, j :: 0 <= i < 3 && 0 <= j < 3 ==> init[i][j] == if i == 0 && j == 1 then 5 else 0;
    assert Closed(init, 3, {0, 1});
    var z := MainResidualAsWritten(3, es, []);
    assert Closed(z, 3, {0});
    ReachableSelf(z, 3, 0);
    ReachableSelf(init, 3, 0);
    ReachableStep(init, 3, 0, 0, 1);
    forall v: nat | Reachable(z, 3, 0, v)
      ensures v == 0
    {
      ClosedContainsReachable(z, 3, {0}, 0, v);
    }
    forall v: nat | Reachable(init, 3, 0, v)
      ensures v < 2
    {
      ClosedContainsReachable(init, 3, {0, 1}, 0, v);
    }
  }

  lemma Sum3(r: seq<int>)
    requires |r| == 3
    ensures Sum(r) == r[0] + r[1] + r[2]
  {
    assert r[..2][..1] == r[..1] && r[..1][..0] == [] && r[..3] == r;
    assert Sum(r[..1]) == r[0];
    assert Sum(r[..2]) == r[0] + r[1];
  }

  lemma Total3(t: Table)
    requires IsSquare(t, 3)
    ensures Total(t, 3) == Sum(t[0]) + Sum(t[1]) + Sum(t[2])
  {
    assert t[0][..3] == t[0] && t[1][..3] == t[1] && t[2][..3] == t[2];
    assert RowsSum(t, 1, 3) == Sum(t[0]);
    assert RowsSum(t, 2, 3) == Sum(t[0]) + Sum(t[1]);
  }

  /** The capacity of a cut of the three-node example, entry by entry. */
  lemma CutOf3(oc: map<(nat, nat), int>, S: set<nat>, T: set<nat>)
    ensures var M := Mask(CapTable(oc, 3), 3, S, T);
      CutCapacity(oc, 3, S, T) == M[0][0] + M[0][1] + M[0][2] + M[1][0] + M[1][1] + M[1][2] + M[2][0] + M[2][1] + M[2][2]
  {
    var M := Mask(CapTable(oc, 3), 3, S, T);
    Total3(M);
    Sum3(M[0]);
    Sum3(M[1]);
    Sum3(M[2]);
  }

  lemma FallbackCuts()
    ensures CutCapacity(OriginalCaps([Edge(0, 1, 5)]), 3, {0}, NodeSet(3) - {0}) == 5
    ensures CutCapacity(OriginalCaps([Edge(0, 1, 5)]), 3, {0, 1}, NodeSet(3) - {0, 1}) == 0
  {
    var es := [Edge(0, 1, 5)];
    assert es[..0] == [];
    var oc := OriginalCaps(es);
    assert oc == map[(0, 1) := 5];
    assert 1 in NodeSet(3) - {0} && 2 in NodeSet(3) - {0} && 1 !in NodeSet(3) - {0, 1};
    CutOf3(oc, {0}, NodeSet(3) - {0});
    CutOf3(oc, {0, 1}, NodeSet(3) - {0, 1});
  }
}
