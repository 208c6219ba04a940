/** Data model of the Edmonds-Karp engine in task-1/src/edmonds_karp.py.
    Node labels are the indices 0..n-1; the capacity and flow dictionaries of
    dictionaries become n-by-n tables (an entry the source never created reads
    as 0, as a defaultdict(int) would). */
module FlowGraph {
  import opened Sums

  /** An input triple (u, v, cap). */
  datatype Edge = Edge(u: nat, v: nat, c: int)

  type Table = seq<seq<int>>

  /** Every edge names known nodes (otherwise the source raises KeyError). */
  predicate EdgesWithin(edges: seq<Edge>, n: nat)
  {
    forall k :: 0 <= k < |edges| ==> edges[k].u < n && edges[k].v < n
  }

  predicate NonNegative(edges: seq<Edge>)
  {
    forall k :: 0 <= k < |edges| ==> edges[k].c >= 0
  }

  predicate NoParallelEdges(edges: seq<Edge>)
  {
    forall i, j :: 0 <= i < j < |edges| ==> edges[i].u != edges[j].u || edges[i].v != edges[j].v
  }

  function ZeroTable(n: nat): (t: Table)
    ensures IsSquare(t, n)
    ensures forall i, j :: 0 <= i < n && 0 <= j < n ==> t[i][j] == 0
  {
    seq(n, _ => seq(n, _ => 0))
  }

  /** Adds c to entry (u, v). */
  function AddTo(t: Table, n: nat, u: nat, v: nat, c: int): (r: Table)
    requires IsSquare(t, n) && u < n && v < n
    ensures IsSquare(r, n)
    ensures forall i, j :: 0 <= i < n && 0 <= j < n ==> r[i][j] == if i == u && j == v then t[i][j] + c else t[i][j]
  {
    t[u := t[u][v := t[u][v] + c]]
  }

  /** The residual table built before the first search: the capacity of every
      edge added to its entry, edge by edge. */
  function InitialCapacity(n: nat, edges: seq<Edge>): (t: Table)
    requires EdgesWithin(edges, n)
    ensures IsSquare(t, n)
  {
    if |edges| == 0 then ZeroTable(n)
    else
      var e := edges[|edges| - 1];
      AddTo(InitialCapacity(n, edges[..|edges| - 1]), n, e.u, e.v, e.c)
  }

  /** Total capacity of the input edges from i to j. */
  function ParallelSum(edges: seq<Edge>, i: nat, j: nat): int
  {
    if |edges| == 0 then 0
    else
      var e := edges[|edges| - 1];
      ParallelSum(edges[..|edges| - 1], i, j) + (if e.u == i && e.v == j then e.c else 0)
  }

  /** Parallel edges are summed: each entry of the initial table is the total
      capacity of the input edges between that ordered pair. */
  lemma {:induction false} InitialCapacityIsParallelSum(n: nat, edges: seq<Edge>, i: nat, j: nat)
    requires EdgesWithin(edges, n) && i < n && j < n
    ensures InitialCapacity(n, edges)[i][j] == ParallelSum(edges, i, j)
  {
    if |edges| > 0 {
      InitialCapacityIsParallelSum(n, edges[..|edges| - 1], i, j);
    }
  }

  lemma {:induction false} ParallelSumNonNegative(edges: seq<Edge>, i: nat, j: nat)
    requires NonNegative(edges)
    ensures ParallelSum(edges, i, j) >= 0
  {
    if |edges| > 0 {
      ParallelSumNonNegative(edges[..|edges| - 1], i, j);
    }
  }

  lemma InitialCapacityNonNegative(n: nat, edges: seq<Edge>)
    requires EdgesWithin(edges, n) && NonNegative(edges)
    ensures forall i, j :: 0 <= i < n && 0 <= j < n ==> InitialCapacity(n, edges)[i][j] >= 0
  {
    forall i, j | 0 <= i < n && 0 <= j < n
      ensures InitialCapacity(n, edges)[i][j] >= 0
    {
      InitialCapacityIsParallelSum(n, edges, i, j);
      ParallelSumNonNegative(edges, i, j);
    }
  }

  /** The capacity dictionary min_cut_from_residual builds from the edge list
      with a dict comprehension: when a pair occurs twice the later capacity wins. */
  function OriginalCaps(edges: seq<Edge>): map<(nat, nat), int>
  {
    if |edges| == 0 then map[]
    else
      var e := edges[|edges| - 1];
      OriginalCaps(edges[..|edges| - 1])[(e.u, e.v) := e.c]
  }

  /** A pair is a key of OriginalCaps exactly when some edge joins it, and with
      no parallel edges its value is that edge's capacity. */
  lemma {:induction false} OriginalCapsKeys(edges: seq<Edge>, i: nat, j: nat)
    ensures (i, j) in OriginalCaps(edges) <==> exists k :: 0 <= k < |edges| && edges[k].u == i && edges[k].v == j
  {
    if |edges| > 0 {
      var m := |edges| - 1;
      OriginalCapsKeys(edges[..m], i, j);
      if (i, j) in OriginalCaps(edges[..m]) {
        var k :| 0 <= k < m && edges[..m][k].u == i && edges[..m][k].v == j;
        assert edges[k] == edges[..m][k];
      }
      if exists k :: 0 <= k < |edges| && edges[k].u == i && edges[k].v == j {
        var k :| 0 <= k < |edges| && edges[k].u == i && edges[k].v == j;
        if k < m {
          assert edges[..m][k] == edges[k];
        }
      }
    }
  }

  /** The capacity a dictionary assigns to (i, j), 0 when the pair is absent. */
  function CapOf(oc: map<(nat, nat), int>, i: nat, j: nat): int
  {
    if (i, j) in oc then oc[(i, j)] else 0
  }

  /** Without parallel edges the dictionary agrees with the summed table. */
  lemma {:induction false} NoParallelCapOf(edges: seq<Edge>, i: nat, j: nat)
    requires NoParallelEdges(edges)
    ensures CapOf(OriginalCaps(edges), i, j) == ParallelSum(edges, i, j)
  {
    if |edges| > 0 {
      var m := |edges| - 1;
      var e := edges[m];
      NoParallelCapOf(edges[..m], i, j);
      if e.u == i && e.v == j {
        OriginalCapsKeys(edges[..m], i, j);
        forall k | 0 <= k < m
          ensures edges[..m][k].u != i || edges[..m][k].v != j
        {
          assert edges[..m][k] == edges[k];
        }
      }
    }
  }

  /** With parallel edges the two stories differ: the residual table holds
      2 + 3 for the pair (0, 1) while the cut's dictionary keeps only 3. */
  lemma {:induction false} ParallelEdgesQuirk()
    ensures InitialCapacity(2, [Edge(0, 1, 2), Edge(0, 1, 3)])[0][1] == 5
    ensures CapOf(OriginalCaps([Edge(0, 1, 2), Edge(0, 1, 3)]), 0, 1) == 3
  {
    var es := [Edge(0, 1, 2), Edge(0, 1, 3)];
    assert es[..1] == [Edge(0, 1, 2)];
    assert es[..1][..0] == [];
    InitialCapacityIsParallelSum(2, es, 0, 1);
  }

  // ---------------------------------------------------------------------
  // Reachability over positive residual capacities

  /** A node sequence whose every step has positive capacity. */
  ghost predicate IsWalk(t: Table, n: nat, w: seq<nat>)
  {
    && IsSquare(t, n)
    && |w| >= 1
    && (forall k :: 0 <= k < |w| ==> w[k] < n)
    && (forall k :: 0 <= k < |w| - 1 ==> t[w[k]][w[k + 1]] > 0)
  }

  ghost predicate Reachable(t: Table, n: nat, s: nat, v: nat)
  {
    exists w :: IsWalk(t, n, w) && w[0] == s && w[|w| - 1] == v
  }

  /** S is closed under edges of positive capacity. */
  ghost predicate Closed(t: Table, n: nat, S: set<nat>)
    requires IsSquare(t, n)
  {
    forall u, v :: 0 <= u < n && 0 <= v < n && u in S && t[u][v] > 0 ==> v in S
  }

  lemma ReachableSelf(t: Table, n: nat, s: nat)
    requires IsSquare(t, n) && s < n
    ensures Reachable(t, n, s, s)
  {
    assert IsWalk(t, n, [s]);
  }

  lemma ReachableStep(t: Table, n: nat, s: nat, u: nat, v: nat)
    requires Reachable(t, n, s, u) && v < n && t[u][v] > 0
    ensures Reachable(t, n, s, v)
  {
    var w :| IsWalk(t, n, w) && w[0] == s && w[|w| - 1] == u;
    var w' := w + [v];
    assert IsWalk(t, n, w');
  }

  lemma {:induction false} WalkStaysInside(t: Table, n: nat, S: set<nat>, w: seq<nat>, k: nat)
    requires IsWalk(t, n, w) && Closed(t, n, S) && w[0] in S && k < |w|
    ensures w[k] in S
  {
    if k > 0 {
      WalkStaysInside(t, n, S, w, k - 1);
    }
  }

  /** Every node reachable from a member of a closed set is in it. */
  lemma ClosedContainsReachable(t: Table, n: nat, S: set<nat>, s: nat, v: nat)
    requires IsSquare(t, n) && Closed(t, n, S) && s in S && Reachable(t, n, s, v)
    ensures v in S
  {
    var w :| IsWalk(t, n, w) && w[0] == s && w[|w| - 1] == v;
    WalkStaysInside(t, n, S, w, |w| - 1);
  }

  lemma ReachableWithin(t: Table, n: nat, s: nat, v: nat)
    requires Reachable(t, n, s, v)
    ensures s < n && v < n
  {
  }

  // ---------------------------------------------------------------------
  // Augmenting paths

  /** The i-th node of an edge path: the tail of edge i, or the head of the last edge. */
  function PathNode(path: seq<(nat, nat)>, i: nat): nat
    requires 1 <= |path| && i <= |path|
  {
    if i < |path| then path[i].0 else path[|path| - 1].1
  }

  /** The `path` field of a history record: the tails of the edges, then the sink. */
  function PathNodes(path: seq<(nat, nat)>, sink: nat): seq<nat>
  {
    seq(|path|, i requires 0 <= i < |path| => path[i].0) + [sink]
  }

  /** A source-to-sink path of linked edges with positive capacity that visits
      no node twice. */
  ghost predicate SimplePath(t: Table, n: nat, s: nat, d: nat, path: seq<(nat, nat)>)
  {
    && IsSquare(t, n)
    && |path| >= 1
    && path[0].0 == s
    && path[|path| - 1].1 == d
    && (forall i :: 0 <= i < |path| - 1 ==> path[i].1 == path[i + 1].0)
    && (forall i :: 0 <= i < |path| ==> path[i].0 < n && path[i].1 < n && t[path[i].0][path[i].1] > 0)
    && (forall i, j :: 0 <= i < j <= |path| ==> PathNode(path, i) != PathNode(path, j))
  }

  /** b is the smallest capacity on the path. */
  ghost predicate IsMinCap(t: Table, n: nat, path: seq<(nat, nat)>, b: int)
    requires IsSquare(t, n)
    requires forall i :: 0 <= i < |path| ==> path[i].0 < n && path[i].1 < n
  {
    && (forall i :: 0 <= i < |path| ==> b <= t[path[i].0][path[i].1])
    && (exists i :: 0 <= i < |path| && b == t[path[i].0][path[i].1])
  }

  /** Change of residual capacity at (i, j) when b is pushed along path. */
  function Delta(path: seq<(nat, nat)>, i: nat, j: nat, b: int): int
  {
    (if (j, i) in path then b else 0) - (if (i, j) in path then b else 0)
  }

  lemma SimplePathNodes(t: Table, n: nat, s: nat, d: nat, path: seq<(nat, nat)>)
    requires SimplePath(t, n, s, d, path)
    ensures |PathNodes(path, d)| == |path| + 1
    ensures forall i :: 0 <= i <= |path| ==> PathNodes(path, d)[i] == PathNode(path, i) < n
    ensures PathNodes(path, d)[0] == s && PathNodes(path, d)[|path|] == d
  {
  }

  /** Edge k of a simple path joins node k to node k+1. */
  lemma SimplePathEdge(t: Table, n: nat, s: nat, d: nat, path: seq<(nat, nat)>, k: nat)
    requires SimplePath(t, n, s, d, path) && k < |path|
    ensures path[k] == (PathNode(path, k), PathNode(path, k + 1))
  {
  }

  /** No ordered pair of a simple path occurs twice, in either direction. */
  lemma SimplePathPairs(t: Table, n: nat, s: nat, d: nat, path: seq<(nat, nat)>, m: nat, k: nat)
    requires SimplePath(t, n, s, d, path) && m < k < |path|
    ensures path[m] != path[k] && path[m] != (path[k].1, path[k].0)
  {
    SimplePathEdge(t, n, s, d, path, m);
    SimplePathEdge(t, n, s, d, path, k);
    assert PathNode(path, m) != PathNode(path, k);
    assert PathNode(path, m) != PathNode(path, k + 1);
  }

  lemma SimplePathNoLoop(t: Table, n: nat, s: nat, d: nat, path: seq<(nat, nat)>, k: nat)
    requires SimplePath(t, n, s, d, path) && k < |path|
    ensures path[k].0 != path[k].1
  {
    SimplePathEdge(t, n, s, d, path, k);
    assert PathNode(path, k) != PathNode(path, k + 1);
  }

  /** The source starts exactly the first edge and ends none. */
  lemma SimplePathSource(t: Table, n: nat, s: nat, d: nat, path: seq<(nat, nat)>, j: nat)
    requires SimplePath(t, n, s, d, path)
    ensures (s, j) in path <==> j == path[0].1
    ensures (j, s) !in path
  {
    assert PathNode(path, 0) == s;
    if (s, j) in path {
      var k :| 0 <= k < |path| && path[k] == (s, j);
      SimplePathEdge(t, n, s, d, path, k);
    }
    if (j, s) in path {
      var k :| 0 <= k < |path| && path[k] == (j, s);
      SimplePathEdge(t, n, s, d, path, k);
    }
  }

  /** Net flow pushed out of x by b along the edges es. */
  function NetShift(es: seq<(nat, nat)>, x: nat, b: int): int
  {
    if |es| == 0 then 0
    else
      var e := es[|es| - 1];
      NetShift(es[..|es| - 1], x, b) + (if e.0 == x then b else 0) - (if e.1 == x then b else 0)
  }

  lemma {:induction false} NetShiftTelescopes(path: seq<(nat, nat)>, s: nat, x: nat, b: int, m: nat)
    requires 1 <= m <= |path| && path[0].0 == s
    requires forall i :: 0 <= i < |path| - 1 ==> path[i].1 == path[i + 1].0
    ensures NetShift(path[..m], x, b) == (if x == s then b else 0) - (if x == path[m - 1].1 then b else 0)
  {
    if m > 1 {
      NetShiftTelescopes(path, s, x, b, m - 1);
      assert path[..m][..m - 1] == path[..m - 1];
    } else {
      assert path[..1][..0] == [];
    }
  }

  /** Pushing b along a path from s to d changes only the net outflow of s and d. */
  lemma PathNetShift(t: Table, n: nat, s: nat, d: nat, path: seq<(nat, nat)>, x: nat, b: int)
    requires SimplePath(t, n, s, d, path)
    ensures NetShift(path, x, b) == (if x == s then b else if x == d then -b else 0)
  {
    NetShiftTelescopes(path, s, x, b, |path|);
    assert path[..|path|] == path;
    assert PathNode(path, 0) != PathNode(path, |path|);
  }
}
