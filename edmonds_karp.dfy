/** The procedures of task-1/src/edmonds_karp.py: building the residual
    table, the breadth-first search for an augmenting path, the augmentation
    loop with its history, and the min cut read off a residual table. Local
    dictionaries that the source mutates are value-typed local variables
    (sequences and sets) that the methods reassign. */
module EdmondsKarp {
  import opened Wrappers
  import opened Sums
  import opened FlowGraph
  import opened FlowHistory
  import opened FlowTheory

  function Min(a: int, b: int): int
  {
    if a <= b then a else b
  }

  /** adj[u] holds the neighbours of u; the relation is symmetric. */
  ghost predicate AdjacencyOk(adj: seq<set<nat>>, n: nat)
  {
    && |adj| == n
    && (forall u, v :: 0 <= u < n && v in adj[u] ==> v < n)
    && (forall u, v :: 0 <= u < n && v in adj[u] ==> u in adj[v])
  }

  lemma AdjacencyBound(adj: seq<set<nat>>, n: nat, u: nat, v: nat)
    requires AdjacencyOk(adj, n) && u < n && v in adj[u]
    ensures v < n
  {
  }

  /** Every positive residual entry is an adjacency: the search, which only
      looks at neighbours, misses no positive edge. */
  ghost predicate Covers(cap: Table, n: nat, adj: seq<set<nat>>)
    requires IsSquare(cap, n) && |adj| == n
  {
    forall u, v :: 0 <= u < n && 0 <= v < n && cap[u][v] > 0 ==> v in adj[u]
  }

  /** Some edge among es joins u and v, in one direction or the other. */
  ghost predicate Joined(es: seq<Edge>, u: nat, v: nat)
  {
    exists k :: 0 <= k < |es| && ((es[k].u == u && es[k].v == v) || (es[k].u == v && es[k].v == u))
  }

  /** Joined over one more edge. */
  lemma JoinedStep(edges: seq<Edge>, k: nat, u: nat, v: nat)
    requires k < |edges|
    ensures Joined(edges[..k + 1], u, v) <==>
              Joined(edges[..k], u, v) || (edges[k].u == u && edges[k].v == v) || (edges[k].u == v && edges[k].v == u)
  {
    var p, p' := edges[..k], edges[..k + 1];
    if Joined(p', u, v) {
      var j :| 0 <= j < k + 1 && ((p'[j].u == u && p'[j].v == v) || (p'[j].u == v && p'[j].v == u));
      if j < k {
        assert p[j] == p'[j];
      }
    }
    if Joined(p, u, v) {
      var j :| 0 <= j < k && ((p[j].u == u && p[j].v == v) || (p[j].u == v && p[j].v == u));
      assert p'[j] == p[j];
    }
    if (edges[k].u == u && edges[k].v == v) || (edges[k].u == v && edges[k].v == u) {
      assert p'[k] == edges[k];
    }
  }

  /** Adding u to the neighbours of v and v to those of u keeps the relation
      symmetric and adds exactly those two pairs. */
  lemma LinkStep(adj: seq<set<nat>>, n: nat, a: nat, b: nat, adj': seq<set<nat>>)
    requires AdjacencyOk(adj, n) && a < n && b < n
    requires adj' == adj[a := adj[a] + {b}][b := adj[a := adj[a] + {b}][b] + {a}]
    ensures AdjacencyOk(adj', n)
    ensures forall x, y :: 0 <= x < n && 0 <= y < n ==>
              (y in adj'[x] <==> y in adj[x] || (x == a && y == b) || (x == b && y == a))
  {
    forall x, y | 0 <= x < n && y in adj'[x]
      ensures y < n && x in adj'[y]
    {
      if y in adj[x] {
        assert x in adj[y];
      }
    }
  }

  lemma CoversStep(cap: Table, n: nat, adj: seq<set<nat>>, e: Edge, adj': seq<set<nat>>)
    requires IsSquare(cap, n) && |adj| == n && |adj'| == n && Covers(cap, n, adj) && e.u < n && e.v < n
    requires forall x :: 0 <= x < n ==> adj[x] <= adj'[x]
    requires e.v in adj'[e.u]
    ensures Covers(AddTo(cap, n, e.u, e.v, e.c), n, adj')
  {
  }

  /** Linking both ends of edge k extends the adjacency to edges[..k + 1]. */
  lemma AdjacencyStep(edges: seq<Edge>, n: nat, k: nat, adj: seq<set<nat>>, adj': seq<set<nat>>)
    requires EdgesWithin(edges, n) && k < |edges| && AdjacencyOk(adj, n)
    requires forall u, v :: 0 <= u < n && 0 <= v < n ==> (v in adj[u] <==> Joined(edges[..k], u, v))
    requires var e := edges[k]; adj' == adj[e.u := adj[e.u] + {e.v}][e.v := adj[e.u := adj[e.u] + {e.v}][e.v] + {e.u}]
    ensures AdjacencyOk(adj', n) && edges[k].v in adj'[edges[k].u]
    ensures forall x :: 0 <= x < n ==> adj[x] <= adj'[x]
    ensures forall u, v :: 0 <= u < n && 0 <= v < n ==> (v in adj'[u] <==> Joined(edges[..k + 1], u, v))
  {
    LinkStep(adj, n, edges[k].u, edges[k].v, adj');
    forall u, v | 0 <= u < n && 0 <= v < n
      ensures v in adj'[u] <==> Joined(edges[..k + 1], u, v)
    {
      JoinedStep(edges, k, u, v);
    }
  }

  /** Adding edge k to the initial table of edges[..k] gives that of edges[..k + 1]. */
  lemma CapacityStep(edges: seq<Edge>, n: nat, k: nat)
    requires EdgesWithin(edges, n) && k < |edges|
    ensures var e := edges[k]; InitialCapacity(n, edges[..k + 1]) == AddTo(InitialCapacity(n, edges[..k]), n, e.u, e.v, e.c)
  {
    assert edges[..k + 1][..k] == edges[..k];
  }

  /** Adding edge k keeps the invariant of the construction loop. */
  lemma ResidualStep(edges: seq<Edge>, n: nat, k: nat, adj: seq<set<nat>>, cap: Table, adj': seq<set<nat>>, cap': Table)
    requires EdgesWithin(edges, n) && k < |edges| && AdjacencyOk(adj, n)
    requires forall u, v :: 0 <= u < n && 0 <= v < n ==> (v in adj[u] <==> Joined(edges[..k], u, v))
    requires cap == InitialCapacity(n, edges[..k]) && Covers(cap, n, adj)
    requires var e := edges[k]; adj' == adj[e.u := adj[e.u] + {e.v}][e.v := adj[e.u := adj[e.u] + {e.v}][e.v] + {e.u}]
    requires var e := edges[k]; cap' == cap[e.u := cap[e.u][e.v := cap[e.u][e.v] + e.c]]
    ensures AdjacencyOk(adj', n)
    ensures forall u, v :: 0 <= u < n && 0 <= v < n ==> (v in adj'[u] <==> Joined(edges[..k + 1], u, v))
    ensures cap' == InitialCapacity(n, edges[..k + 1]) && Covers(cap', n, adj')
  {
    var e := edges[k];
    assert cap' == AddTo(cap, n, e.u, e.v, e.c);
    AdjacencyStep(edges, n, k, adj, adj');
    CoversStep(cap, n, adj, e, adj');
    CapacityStep(edges, n, k);
  }

  /** Lines 46-52: adjacency in both directions and capacities summed over
      parallel edges. */
  method BuildResidual(n: nat, edges: seq<Edge>) returns (adj: seq<set<nat>>, capacity: Table)
    requires EdgesWithin(edges, n)
    ensures AdjacencyOk(adj, n)
    ensures forall u, v :: 0 <= u < n && 0 <= v < n ==> (v in adj[u] <==> Joined(edges, u, v))
    ensures capacity == InitialCapacity(n, edges)
    ensures Covers(capacity, n, adj)
  {
    adj := seq(n, _ => {});
    capacity := ZeroTable(n);
    for k := 0 to |edges|
      invariant AdjacencyOk(adj, n)
      invariant forall u, v :: 0 <= u < n && 0 <= v < n ==> (v in adj[u] <==> Joined(edges[..k], u, v))
      invariant capacity == InitialCapacity(n, edges[..k])
      invariant Covers(capacity, n, adj)
    {
      var e := edges[k];
      ghost var adj0, capacity0 := adj, capacity;
      adj := adj[e.u := adj[e.u] + {e.v}];
      adj := adj[e.v := adj[e.v] + {e.u}];
      capacity := capacity[e.u := capacity[e.u][e.v := capacity[e.u][e.v] + e.c]];
      // The source also creates a zero reverse entry here; a dense table has it already.
      ResidualStep(edges, n, k, adj0, capacity0, adj, capacity);
    }
    assert edges[..|edges|] == edges;
  }

  /** parent links each discovered node other than the source to a
      discovered node of smaller rank over a positive residual edge; the
      source is its own parent. */
  ghost predicate ParentTree(cap: Table, n: nat, source: nat, parent: seq<Option<nat>>, rank: seq<nat>)
    requires IsSquare(cap, n)
  {
    && |parent| == n && |rank| == n && source < n
    && parent[source] == Some(source)
    && forall v :: 0 <= v < n && v != source && parent[v].Some? ==>
         parent[v].value < n && parent[parent[v].value].Some? && rank[parent[v].value] < rank[v]
         && cap[parent[v].value][v] > 0
  }

  /** Following parents from a discovered node leads back to the source. */
  lemma {:induction false} ParentChainReaches(cap: Table, n: nat, source: nat, parent: seq<Option<nat>>, rank: seq<nat>, v: nat)
    requires IsSquare(cap, n) && ParentTree(cap, n, source, parent, rank) && v < n && parent[v].Some?
    ensures Reachable(cap, n, source, v)
    decreases rank[v]
  {
    if v == source {
      ReachableSelf(cap, n, source);
    } else {
      var u := parent[v].value;
      ParentChainReaches(cap, n, source, parent, rank, u);
      ReachableStep(cap, n, source, u, v);
    }
  }

  /** The nodes the search has not discovered yet. */
  ghost function Unseen(parent: seq<Option<nat>>): set<nat>
  {
    set v: nat | v < |parent| && parent[v].None?
  }

  /** The search between two dequeues: the discovered nodes are exactly the
      expanded ones and the queued ones, every positive successor of an
      expanded node is discovered, and the sink is still undiscovered. */
  ghost predicate SearchState(cap: Table, n: nat, source: nat, sink: nat, parent: seq<Option<nat>>,
                              rank: seq<nat>, next: nat, q: seq<nat>, done: set<nat>)
    requires IsSquare(cap, n)
  {
    && |parent| == n && |rank| == n
    && ParentTree(cap, n, source, parent, rank)
    && (forall v :: 0 <= v < n && parent[v].Some? ==> rank[v] < next)
    && (forall i :: 0 <= i < |q| ==> q[i] < n)
    && (forall v :: v in done ==> v < n)
    && (forall v :: 0 <= v < n ==> (parent[v].Some? <==> v in done || v in q))
    && (forall u, v :: u in done && 0 <= v < n && cap[u][v] > 0 ==> parent[v].Some?)
    && (sink != source && sink < n ==> parent[sink].None?)
  }

  /** The scan of u's neighbours in progress: as SearchState, with u counted
      as expanded for the neighbours outside rest only. */
  ghost predicate ScanState(cap: Table, adj: seq<set<nat>>, n: nat, source: nat, sink: nat, u: nat, rest: set<nat>,
                            parent: seq<Option<nat>>, rank: seq<nat>, next: nat, q: seq<nat>, done: set<nat>)
    requires IsSquare(cap, n) && |adj| == n
  {
    && |parent| == n && |rank| == n && u < n
    && ParentTree(cap, n, source, parent, rank)
    && parent[u].Some?
    && (forall v :: 0 <= v < n && parent[v].Some? ==> rank[v] < next)
    && (forall i :: 0 <= i < |q| ==> q[i] < n)
    && (forall v :: v in done ==> v < n)
    && (forall v :: 0 <= v < n ==> (parent[v].Some? <==> v in done || v in q || v == u))
    && (forall w, v :: w in done && 0 <= v < n && cap[w][v] > 0 ==> parent[v].Some?)
    && (forall v :: 0 <= v < n && v in adj[u] && v !in rest && cap[u][v] > 0 ==> parent[v].Some?)
    && (sink != source && sink < n ==> parent[sink].None?)
  }

  lemma ScanStart(cap: Table, adj: seq<set<nat>>, n: nat, source: nat, sink: nat, u: nat,
                  parent: seq<Option<nat>>, rank: seq<nat>, next: nat, q: seq<nat>, done: set<nat>)
    requires IsSquare(cap, n) && |adj| == n
    requires SearchState(cap, n, source, sink, parent, rank, next, [u] + q, done) && u < n
    ensures ScanState(cap, adj, n, source, sink, u, adj[u], parent, rank, next, q, done)
  {
    assert ([u] + q)[0] == u;
    forall i | 0 <= i < |q|
      ensures q[i] < n
    {
      assert q[i] == ([u] + q)[i + 1];
    }
    forall v | 0 <= v < n
      ensures v in [u] + q <==> v in q || v == u
    {
    }
  }

  /** Discovering v from u keeps the scan state, with v queued. */
  lemma ScanDiscover(cap: Table, adj: seq<set<nat>>, n: nat, source: nat, sink: nat, u: nat, rest: set<nat>,
                     parent: seq<Option<nat>>, rank: seq<nat>, next: nat, q: seq<nat>, done: set<nat>, v: nat)
    requires IsSquare(cap, n) && AdjacencyOk(adj, n)
    requires ScanState(cap, adj, n, source, sink, u, rest, parent, rank, next, q, done)
    requires v in rest && rest <= adj[u] && v < n && parent[v].None? && cap[u][v] > 0 && v != sink
    ensures ScanState(cap, adj, n, source, sink, u, rest - {v}, parent[v := Some(u)], rank[v := next], next + 1, q + [v], done)
  {
  }

  /** Discovering v from u keeps the parent tree. */
  lemma DiscoverTree(cap: Table, n: nat, source: nat, parent: seq<Option<nat>>, rank: seq<nat>, next: nat, u: nat, v: nat)
    requires IsSquare(cap, n) && ParentTree(cap, n, source, parent, rank)
    requires u < n && v < n && parent[u].Some? && parent[v].None? && rank[u] < next && cap[u][v] > 0
    ensures ParentTree(cap, n, source, parent[v := Some(u)], rank[v := next])
    ensures Unseen(parent[v := Some(u)]) == Unseen(parent) - {v}
  {
  }

  lemma ScanSkip(cap: Table, adj: seq<set<nat>>, n: nat, source: nat, sink: nat, u: nat, rest: set<nat>,
                 parent: seq<Option<nat>>, rank: seq<nat>, next: nat, q: seq<nat>, done: set<nat>, v: nat)
    requires IsSquare(cap, n) && AdjacencyOk(adj, n)
    requires ScanState(cap, adj, n, source, sink, u, rest, parent, rank, next, q, done)
    requires v in rest && rest <= adj[u] && v < n && !(parent[v].None? && cap[u][v] > 0)
    ensures ScanState(cap, adj, n, source, sink, u, rest - {v}, parent, rank, next, q, done)
  {
  }

  lemma ScanEnd(cap: Table, adj: seq<set<nat>>, n: nat, source: nat, sink: nat, u: nat,
                parent: seq<Option<nat>>, rank: seq<nat>, next: nat, q: seq<nat>, done: set<nat>)
    requires IsSquare(cap, n) && AdjacencyOk(adj, n) && Covers(cap, n, adj)
    requires ScanState(cap, adj, n, source, sink, u, {}, parent, rank, next, q, done)
    ensures SearchState(cap, n, source, sink, parent, rank, next, q, done + {u})
  {
  }

  /** Lines 26-31: scan the neighbours of a dequeued node u, discovering and
      queueing those reachable over a positive residual edge; hit reports
      that the sink was discovered, which ends the scan at once. */
  method ExpandNode(cap: Table, adj: seq<set<nat>>, n: nat, source: nat, sink: nat, u: nat,
                    parent: seq<Option<nat>>, q: seq<nat>, ghost rank: seq<nat>, ghost next: nat, ghost done: set<nat>)
    returns (hit: bool, parent': seq<Option<nat>>, q': seq<nat>, ghost rank': seq<nat>, ghost next': nat)
    requires IsSquare(cap, n) && AdjacencyOk(adj, n) && Covers(cap, n, adj)
    requires SearchState(cap, n, source, sink, parent, rank, next, [u] + q, done)
    ensures |parent'| == n
    ensures hit ==> sink != source && sink < n && ParentTree(cap, n, source, parent', rank') && parent'[sink].Some?
    ensures !hit ==> SearchState(cap, n, source, sink, parent', rank', next', q', done + {u})
    ensures Unseen(parent') <= Unseen(parent) && (Unseen(parent') == Unseen(parent) ==> q' == q)
  {
    assert ([u] + q)[0] == u;
    ScanStart(cap, adj, n, source, sink, u, parent, rank, next, q, done);
    parent', q', rank', next' := parent, q, rank, next;
    var rest := adj[u];
    while rest != {}
      invariant rest <= adj[u]
      invariant ScanState(cap, adj, n, source, sink, u, rest, parent', rank', next', q', done)
      invariant Unseen(parent') <= Unseen(parent) && (Unseen(parent') == Unseen(parent) ==> q' == q)
      decreases rest
    {
      var v :| v in rest;
      AdjacencyBound(adj, n, u, v);
      if parent'[v].None? && cap[u][v] > 0 {
        DiscoverTree(cap, n, source, parent', rank', next', u, v);
        if v == sink {
          parent' := parent'[v := Some(u)];
          rank' := rank'[v := next'];
          hit := true;
          return;
        }
        ScanDiscover(cap, adj, n, source, sink, u, rest, parent', rank', next', q', done, v);
        parent' := parent'[v := Some(u)];
        rank' := rank'[v := next'];
        next' := next' + 1;
        q' := q' + [v];
      } else {
        ScanSkip(cap, adj, n, source, sink, u, rest, parent', rank', next', q', done, v);
      }
      rest := rest - {v};
    }
    ScanEnd(cap, adj, n, source, sink, u, parent', rank', next', q', done);
    hit := false;
  }

  /** _bfs_capacity (lines 19-32): breadth-first search from the source over
      positive residual edges, stopping as soon as the sink is discovered.
      The source is marked as its own parent, so it is never rediscovered and
      a search with sink == source fails. */
  method BfsCapacity(parent0: seq<Option<nat>>, cap: Table, adj: seq<set<nat>>, n: nat, source: nat, sink: nat)
    returns (found: bool, parent: seq<Option<nat>>, ghost rank: seq<nat>)
    requires |parent0| == n && IsSquare(cap, n) && AdjacencyOk(adj, n) && Covers(cap, n, adj) && source < n
    ensures |parent| == n
    ensures found <==> sink != source && Reachable(cap, n, source, sink)
    ensures found ==> sink < n && ParentTree(cap, n, source, parent, rank) && parent[sink].Some?
  {
    parent := parent0;
    for k := 0 to |parent|
      invariant |parent| == n
      invariant forall i :: 0 <= i < k ==> parent[i] == None
    {
      parent := parent[k := None];
    }
    var q := [source];
    parent := parent[source := Some(source)];
    rank := seq(n, _ => 0);
    ghost var next: nat := 1;
    ghost var done: set<nat> := {};
    while q != []
      invariant |parent| == n
      invariant SearchState(cap, n, source, sink, parent, rank, next, q, done)
      decreases Unseen(parent), |q|
    {
      var u := q[0];
      q := q[1..];
      var hit;
      hit, parent, q, rank, next := ExpandNode(cap, adj, n, source, sink, u, parent, q, rank, next, done);
      if hit {
        ParentChainReaches(cap, n, source, parent, rank, sink);
        found := true;
        return;
      }
      done := done + {u};
    }
    found := false;
    assert Closed(cap, n, done);
    if sink != source && Reachable(cap, n, source, sink) {
      ReachableWithin(cap, n, source, sink);
      ClosedContainsReachable(cap, n, done, source, sink);
    }
  }

  lemma PrependPathNode(path: seq<(nat, nat)>, e: (nat, nat), i: nat)
    requires |path| >= 1 && i <= |path|
    ensures PathNode([e] + path, i + 1) == PathNode(path, i)
  {
  }

  /** The edges collected so far lead from v to the sink, with ranks strictly
      increasing along them and b their smallest capacity. */
  ghost predicate BackChain(cap: Table, n: nat, rank: seq<nat>, path: seq<(nat, nat)>, v: nat, sink: nat, b: int)
    requires IsSquare(cap, n) && |rank| == n
  {
    if path == [] then v == sink
    else
      && path[0].0 == v && path[|path| - 1].1 == sink
      && (forall i :: 0 <= i < |path| - 1 ==> path[i].1 == path[i + 1].0)
      && (forall i :: 0 <= i < |path| ==> path[i].0 < n && path[i].1 < n && cap[path[i].0][path[i].1] > 0)
      && (forall i, j :: 0 <= i < j <= |path| ==> rank[PathNode(path, i)] < rank[PathNode(path, j)])
      && IsMinCap(cap, n, path, b) && b >= 1
  }

  lemma BackChainRanks(n: nat, rank: seq<nat>, path: seq<(nat, nat)>, u: nat, v: nat)
    requires |rank| == n && |path| >= 1 && path[0].0 == v && u < n && v < n && rank[u] < rank[v]
    requires forall i :: 0 <= i <= |path| ==> PathNode(path, i) < n
    requires forall i, j :: 0 <= i < j <= |path| ==> rank[PathNode(path, i)] < rank[PathNode(path, j)]
    ensures forall i :: 0 <= i <= |path| + 1 ==> PathNode([(u, v)] + path, i) < n
    ensures forall i, j :: 0 <= i < j <= |path| + 1 ==> rank[PathNode([(u, v)] + path, i)] < rank[PathNode([(u, v)] + path, j)]
  {
    var p := [(u, v)] + path;
    forall i | 0 <= i <= |path|
      ensures PathNode(p, i + 1) == PathNode(path, i)
    {
      PrependPathNode(path, (u, v), i);
    }
    assert forall i :: 0 <= i <= |p| ==> PathNode(p, i) < n by {
      forall i | 0 <= i <= |p|
        ensures PathNode(p, i) < n
      {
        if i > 0 {
          assert PathNode(p, i) == PathNode(path, i - 1);
        }
      }
    }
    forall i, j | 0 <= i < j <= |p|
      ensures rank[PathNode(p, i)] < rank[PathNode(p, j)]
    {
      if i > 0 {
        assert PathNode(p, i) == PathNode(path, i - 1);
      }
      assert PathNode(p, j) == PathNode(path, j - 1);
      if i == 0 && j > 1 {
        assert rank[PathNode(path, 0)] < rank[PathNode(path, j - 1)];
      }
    }
  }

  /** Prepending edge (u, v) keeps the smallest capacity up to date. */
  lemma PrependMinCap(cap: Table, n: nat, path: seq<(nat, nat)>, b: int, u: nat, v: nat)
    requires IsSquare(cap, n) && u < n && v < n
    requires forall i :: 0 <= i < |path| ==> path[i].0 < n && path[i].1 < n
    requires path != [] && IsMinCap(cap, n, path, b)
    ensures IsMinCap(cap, n, [(u, v)] + path, Min(b, cap[u][v]))
  {
    var p := [(u, v)] + path;
    assert forall i :: 0 <= i < |path| ==> p[i + 1] == path[i];
    var w :| 0 <= w < |path| && b == cap[path[w].0][path[w].1];
    if Min(b, cap[u][v]) == b {
      assert p[w + 1] == path[w];
    } else {
      assert Min(b, cap[u][v]) == cap[p[0].0][p[0].1];
    }
  }

  /** Prepending a positive edge (u, v) in front of a linked path from v
      gives a linked path from u. */
  lemma PrependLinks(cap: Table, n: nat, path: seq<(nat, nat)>, u: nat, v: nat)
    requires IsSquare(cap, n) && u < n && v < n && cap[u][v] > 0 && path != [] && path[0].0 == v
    requires forall i :: 0 <= i < |path| - 1 ==> path[i].1 == path[i + 1].0
    requires forall i :: 0 <= i < |path| ==> path[i].0 < n && path[i].1 < n && cap[path[i].0][path[i].1] > 0
    ensures forall i :: 0 <= i <= |path| ==> PathNode(path, i) < n
    ensures var p := [(u, v)] + path;
      && (forall i :: 0 <= i < |p| - 1 ==> p[i].1 == p[i + 1].0)
      && (forall i :: 0 <= i < |p| ==> p[i].0 < n && p[i].1 < n && cap[p[i].0][p[i].1] > 0)
  {
    var p := [(u, v)] + path;
    assert forall i :: 0 < i < |p| ==> p[i] == path[i - 1];
  }

  lemma BackChainStep(cap: Table, n: nat, rank: seq<nat>, path: seq<(nat, nat)>, v: nat, sink: nat, b: int, u: nat)
    requires IsSquare(cap, n) && |rank| == n && BackChain(cap, n, rank, path, v, sink, b)
    requires u < n && v < n && cap[u][v] > 0 && rank[u] < rank[v]
    ensures BackChain(cap, n, rank, [(u, v)] + path, u, sink, if path == [] then cap[u][v] else Min(b, cap[u][v]))
  {
    var p := [(u, v)] + path;
    if path == [] {
      assert PathNode(p, 0) == u && PathNode(p, 1) == v;
      assert cap[u][v] == cap[p[0].0][p[0].1];
    } else {
      PrependLinks(cap, n, path, u, v);
      BackChainRanks(n, rank, path, u, v);
      PrependMinCap(cap, n, path, b, u, v);
    }
  }

  lemma BackChainDone(cap: Table, n: nat, rank: seq<nat>, path: seq<(nat, nat)>, source: nat, sink: nat, b: int)
    requires IsSquare(cap, n) && |rank| == n && BackChain(cap, n, rank, path, source, sink, b) && source != sink
    ensures SimplePath(cap, n, source, sink, path) && IsMinCap(cap, n, path, b) && b >= 1
  {
    forall i, j | 0 <= i < j <= |path|
      ensures PathNode(path, i) != PathNode(path, j)
    {
      assert rank[PathNode(path, i)] < rank[PathNode(path, j)];
    }
  }

  /** Lines 61-69: walk the parents back from the sink, collecting the path
      edges (prepending, which equals appending then reversing) and the
      smallest residual capacity on them. */
  method ReconstructPath(cap: Table, n: nat, parent: seq<Option<nat>>, ghost rank: seq<nat>, source: nat, sink: nat)
    returns (path: seq<(nat, nat)>, bottleneck: int)
    requires IsSquare(cap, n) && ParentTree(cap, n, source, parent, rank)
    requires sink < n && sink != source && parent[sink].Some?
    ensures SimplePath(cap, n, source, sink, path)
    ensures IsMinCap(cap, n, path, bottleneck) && bottleneck >= 1
    ensures forall k :: 0 <= k < |path| ==> parent[path[k].1] == Some(path[k].0)
  {
    path := [];
    var v: nat := sink;
    bottleneck := 0;
    while v != source
      invariant |parent| == n && |rank| == n && v < n && parent[v].Some?
      invariant BackChain(cap, n, rank, path, v, sink, bottleneck)
      invariant forall k :: 0 <= k < |path| ==> parent[path[k].1] == Some(path[k].0)
      decreases rank[v]
    {
      var u := parent[v].value;
      BackChainStep(cap, n, rank, path, v, sink, bottleneck, u);
      bottleneck := if path == [] then cap[u][v] else Min(bottleneck, cap[u][v]);
      path := [(u, v)] + path;
      v := u;
    }
    BackChainDone(cap, n, rank, path, source, sink, bottleneck);
  }

  /** The change that Delta describes for one more edge of a simple path. */
  lemma DeltaStep(t: Table, n: nat, s: nat, d: nat, path: seq<(nat, nat)>, k: nat, b: int)
    requires SimplePath(t, n, s, d, path) && k < |path|
    ensures forall i, j :: Delta(path[..k + 1], i, j, b) ==
              Delta(path[..k], i, j, b)
              + (if i == path[k].1 && j == path[k].0 then b else 0)
              - (if i == path[k].0 && j == path[k].1 then b else 0)
  {
    assert path[..k + 1] == path[..k] + [path[k]];
    forall m | 0 <= m < k
      ensures path[m] != path[k] && path[m] != (path[k].1, path[k].0)
    {
      SimplePathPairs(t, n, s, d, path, m, k);
    }
    SimplePathNoLoop(t, n, s, d, path, k);
  }

  /** Entry (u, v) gains d, then entry (v, u) loses d: the paired updates of
      lines 73-76. */
  function PushPair(t: Table, n: nat, u: nat, v: nat, d: int): (r: Table)
    requires IsSquare(t, n) && u < n && v < n && u != v
    ensures IsSquare(r, n)
    ensures forall i, j :: 0 <= i < n && 0 <= j < n ==>
              r[i][j] == t[i][j] + (if i == u && j == v then d else 0) - (if i == v && j == u then d else 0)
  {
    var t1 := t[u := t[u][v := t[u][v] + d]];
    t1[v := t1[v][u := t1[v][u] - d]]
  }

  lemma PushPairSums(t: Table, n: nat, u: nat, v: nat, d: int)
    requires IsSquare(t, n) && u < n && v < n && u != v
    ensures forall x :: 0 <= x < n ==>
              Sum(PushPair(t, n, u, v, d)[x]) == Sum(t[x]) + (if x == u then d else 0) - (if x == v then d else 0)
  {
    SumUpdate(t[u], v, d);
    SumUpdate(t[v], u, -d);
  }

  /** After pushing b over path[..k], the residual table carries exactly
      the changes of those edges. */
  ghost predicate CapUpTo(cap: Table, n: nat, path: seq<(nat, nat)>, k: nat, b: int, cap': Table)
    requires IsSquare(cap, n) && k <= |path|
  {
    IsSquare(cap', n) && forall i, j :: 0 <= i < n && 0 <= j < n ==> cap'[i][j] == cap[i][j] + Delta(path[..k], i, j, b)
  }

  /** The same for the flow table, which changes the opposite way. */
  ghost predicate FlowUpTo(flow: Table, n: nat, path: seq<(nat, nat)>, k: nat, b: int, flow': Table)
    requires IsSquare(flow, n) && k <= |path|
  {
    IsSquare(flow', n) && forall i, j :: 0 <= i < n && 0 <= j < n ==> flow'[i][j] == flow[i][j] - Delta(path[..k], i, j, b)
  }

  /** The net outflow of every node has shifted by that of path[..k]. */
  ghost predicate SumsUpTo(flow: Table, n: nat, path: seq<(nat, nat)>, k: nat, b: int, flow': Table)
    requires IsSquare(flow, n) && k <= |path|
  {
    IsSquare(flow', n) && forall x :: 0 <= x < n ==> Sum(flow'[x]) == Sum(flow[x]) + NetShift(path[..k], x, b)
  }

  lemma PushedCapStep(cap: Table, n: nat, s: nat, d: nat, path: seq<(nat, nat)>, k: nat, b: int, cap': Table)
    requires SimplePath(cap, n, s, d, path) && k < |path| && path[k].0 != path[k].1
    requires CapUpTo(cap, n, path, k, b, cap')
    ensures CapUpTo(cap, n, path, k + 1, b, PushPair(cap', n, path[k].0, path[k].1, -b))
  {
    DeltaStep(cap, n, s, d, path, k, b);
  }

  lemma PushedFlowStep(cap: Table, flow: Table, n: nat, s: nat, d: nat, path: seq<(nat, nat)>, k: nat, b: int, flow': Table)
    requires IsSquare(flow, n) && SimplePath(cap, n, s, d, path) && k < |path| && path[k].0 != path[k].1
    requires FlowUpTo(flow, n, path, k, b, flow')
    ensures FlowUpTo(flow, n, path, k + 1, b, PushPair(flow', n, path[k].0, path[k].1, b))
  {
    DeltaStep(cap, n, s, d, path, k, b);
  }

  lemma PushedSumsStep(flow: Table, n: nat, path: seq<(nat, nat)>, k: nat, b: int, flow': Table)
    requires IsSquare(flow, n) && k < |path|
    requires path[k].0 < n && path[k].1 < n && path[k].0 != path[k].1
    requires SumsUpTo(flow, n, path, k, b, flow')
    ensures SumsUpTo(flow, n, path, k + 1, b, PushPair(flow', n, path[k].0, path[k].1, b))
  {
    PushPairSums(flow', n, path[k].0, path[k].1, b);
    assert path[..k + 1][..k] == path[..k];
  }

  /** cap' and flow' are cap and flow after pushing b along path: the
      residual entries change by Delta, the flow entries by its opposite, and
      only the source's and the sink's net outflow move, by b and -b. */
  ghost predicate Augmented(cap: Table, flow: Table, n: nat, path: seq<(nat, nat)>, b: int, s: nat, d: nat,
                            cap': Table, flow': Table)
    requires IsSquare(cap, n) && IsSquare(flow, n)
  {
    && Pushed(cap, n, path, b, cap')
    && IsSquare(flow', n)
    && (forall i, j :: 0 <= i < n && 0 <= j < n ==> flow'[i][j] == flow[i][j] - Delta(path, i, j, b))
    && (forall x :: 0 <= x < n ==> Sum(flow'[x]) == Sum(flow[x]) + (if x == s then b else if x == d then -b else 0))
  }

  /** Lines 72-76: push the bottleneck along every path edge, in place. */
  method Augment(cap: Table, flow: Table, n: nat, path: seq<(nat, nat)>, bottleneck: int, ghost source: nat, ghost sink: nat)
    returns (cap': Table, flow': Table)
    requires IsSquare(cap, n) && IsSquare(flow, n) && SimplePath(cap, n, source, sink, path)
    ensures Augmented(cap, flow, n, path, bottleneck, source, sink, cap', flow')
  {
    var b := bottleneck;
    cap', flow' := cap, flow;
    AugmentStart(cap, flow, n, path, b);
    for k := 0 to |path|
      invariant CapUpTo(cap, n, path, k, b, cap')
      invariant FlowUpTo(flow, n, path, k, b, flow')
      invariant SumsUpTo(flow, n, path, k, b, flow')
    {
      var (u, v) := path[k];
      SimplePathNoLoop(cap, n, source, sink, path, k);
      PushedCapStep(cap, n, source, sink, path, k, b, cap');
      PushedFlowStep(cap, flow, n, source, sink, path, k, b, flow');
      PushedSumsStep(flow, n, path, k, b, flow');
      // move b units of residual capacity from (u, v) to (v, u) and record them as flow
      cap' := PushPair(cap', n, u, v, -b);
      flow' := PushPair(flow', n, u, v, b);
    }
    AugmentDone(cap, flow, n, path, b, source, sink, cap', flow');
  }

  lemma AugmentStart(cap: Table, flow: Table, n: nat, path: seq<(nat, nat)>, b: int)
    requires IsSquare(cap, n) && IsSquare(flow, n)
    ensures CapUpTo(cap, n, path, 0, b, cap) && FlowUpTo(flow, n, path, 0, b, flow) && SumsUpTo(flow, n, path, 0, b, flow)
  {
    forall x | 0 <= x < n
      ensures NetShift(path[..0], x, b) == 0
    {
    }
  }

  /** After the last path edge the running changes are those of the whole path. */
  lemma AugmentDone(cap: Table, flow: Table, n: nat, path: seq<(nat, nat)>, b: int, s: nat, d: nat,
                    cap': Table, flow': Table)
    requires IsSquare(cap, n) && IsSquare(flow, n) && SimplePath(cap, n, s, d, path)
    requires CapUpTo(cap, n, path, |path|, b, cap') && FlowUpTo(flow, n, path, |path|, b, flow')
    requires SumsUpTo(flow, n, path, |path|, b, flow')
    ensures Augmented(cap, flow, n, path, b, s, d, cap', flow')
  {
    assert path[..|path|] == path;
    forall x | 0 <= x < n
      ensures NetShift(path, x, b) == if x == s then b else if x == d then -b else 0
    {
      PathNetShift(cap, n, s, d, path, x, b);
    }
  }

  /** Positive residual entries created by an augmentation are reverse path
      edges, which are adjacencies by symmetry. */
  lemma AugmentCovers(cap: Table, n: nat, s: nat, d: nat, adj: seq<set<nat>>, path: seq<(nat, nat)>, b: int, cap': Table)
    requires IsSquare(cap, n) && AdjacencyOk(adj, n) && Covers(cap, n, adj)
    requires SimplePath(cap, n, s, d, path) && Pushed(cap, n, path, b, cap')
    ensures Covers(cap', n, adj)
  {
    forall u, v | 0 <= u < n && 0 <= v < n && cap'[u][v] > 0
      ensures v in adj[u]
    {
      if cap[u][v] <= 0 {
        assert (v, u) in path;
        var k :| 0 <= k < |path| && path[k] == (v, u);
        assert cap[v][u] > 0;
      }
    }
  }

  /** What the augmentation loop keeps: the residual and flow tables balance
      the initial capacities, the flow value is the flow leaving the source
      and what the source's positive residual capacity has lost, and the
      history replays to the current residual table. */
  ghost predicate Progress(init: Table, n: nat, s: nat, d: nat, adj: seq<set<nat>>, cap: Table, flow: Table,
                           maxFlow: int, history: seq<Step>)
  {
    && s < n && IsSquare(cap, n) && AdjacencyOk(adj, n) && Covers(cap, n, adj)
    && Balanced(init, n, cap, flow)
    && NetOut(flow, n, s, d, maxFlow)
    && maxFlow >= 0 && maxFlow + SumPos(cap[s]) == SumPos(init[s])
    && ValidHistory(init, n, s, d, history)
    && cap == ResidualAfter(init, history)
    && maxFlow == CumulativeAfter(history)
  }

  lemma ProgressStart(n: nat, edges: seq<Edge>, s: nat, d: nat, adj: seq<set<nat>>)
    requires EdgesWithin(edges, n) && s < n && AdjacencyOk(adj, n) && Covers(InitialCapacity(n, edges), n, adj)
    ensures Progress(InitialCapacity(n, edges), n, s, d, adj, InitialCapacity(n, edges), ZeroTable(n), 0, [])
  {
    var z := ZeroTable(n);
    forall x | 0 <= x < n
      ensures Sum(z[x]) == 0
    {
      SumOfZeros(z[x]);
    }
  }

  lemma NetOutStep(flow: Table, flow': Table, n: nat, s: nat, d: nat, value: int, b: int)
    requires IsSquare(flow, n) && IsSquare(flow', n) && NetOut(flow, n, s, d, value)
    requires forall x :: 0 <= x < n ==> Sum(flow'[x]) == Sum(flow[x]) + (if x == s then b else if x == d then -b else 0)
    ensures NetOut(flow', n, s, d, value + b)
  {
  }

  /** One augmentation (lines 60-78) keeps Progress and strictly lowers the
      source's positive residual capacity. */
  lemma ProgressStep(init: Table, n: nat, s: nat, d: nat, adj: seq<set<nat>>, cap: Table, flow: Table,
                     maxFlow: int, history: seq<Step>, path: seq<(nat, nat)>, b: int, cap': Table, flow': Table,
                     maxFlow': int, history': seq<Step>)
    requires Progress(init, n, s, d, adj, cap, flow, maxFlow, history)
    requires SimplePath(cap, n, s, d, path) && IsMinCap(cap, n, path, b) && b >= 1
    requires Augmented(cap, flow, n, path, b, s, d, cap', flow')
    requires maxFlow' == maxFlow + b
    requires history' == history + [Step(|history| + 1, PathNodes(path, d), path, b, maxFlow', cap')]
    ensures Progress(init, n, s, d, adj, cap', flow', maxFlow', history')
    ensures |history'| == |history| + 1 && history'[..|history|] == history
    ensures SumPos(cap'[s]) < SumPos(cap[s])
  {
    var st := history'[|history|];
    assert history'[..|history|] == history;
    assert ValidStep(ResidualAfter(init, history), n, s, d, st, |history| + 1, CumulativeAfter(history));
    HistoryExtend(init, n, s, d, history, st);
    AugmentBalanced(init, n, s, d, cap, flow, path, b, cap', flow');
    AugmentSourceRow(n, s, d, cap, path, b, cap');
    AugmentCovers(cap, n, s, d, adj, path, b, cap');
    NetOutStep(flow, flow', n, s, d, maxFlow, b);
  }

  /** The body of the augmentation loop (lines 60-78): reconstruct the path
      the search found, push its bottleneck and record the step. */
  method AugmentOnce(ghost init: Table, n: nat, source: nat, sink: nat, ghost adj: seq<set<nat>>,
                     capacity: Table, flow: Table, maxFlow: int, history: seq<Step>, step: nat,
                     parent: seq<Option<nat>>, ghost rank: seq<nat>)
    returns (capacity': Table, flow': Table, maxFlow': int, history': seq<Step>, step': nat)
    requires Progress(init, n, source, sink, adj, capacity, flow, maxFlow, history) && step == |history|
    requires sink < n && sink != source && ParentTree(capacity, n, source, parent, rank) && parent[sink].Some?
    ensures Progress(init, n, source, sink, adj, capacity', flow', maxFlow', history') && step' == |history'|
    ensures |history'| == |history| + 1 && history'[..|history|] == history
    ensures SumPos(capacity'[source]) < SumPos(capacity[source])
  {
    var path, bottleneck := ReconstructPath(capacity, n, parent, rank, source, sink);
    step' := step + 1;
    capacity', flow' := Augment(capacity, flow, n, path, bottleneck, source, sink);
    maxFlow' := maxFlow + bottleneck;
    var st := Step(step', PathNodes(path, sink), path, bottleneck, maxFlow', capacity');
    history' := history + [st];
    ProgressStep(init, n, source, sink, adj, capacity, flow, maxFlow, history, path, bottleneck, capacity', flow',
                 maxFlow', history');
  }

  /** edmonds_karp (lines 35-83): repeat search, path reconstruction and
      augmentation until the sink is unreachable, recording each step. */
  method EdmondsKarp(n: nat, edges: seq<Edge>, source: nat, sink: nat)
    returns (maxFlow: int, flow: Table, history: seq<Step>)
    requires EdgesWithin(edges, n) && source < n
    ensures ValidHistory(InitialCapacity(n, edges), n, source, sink, history)
    ensures maxFlow == TotalBottleneck(history) == CumulativeAfter(history)
    ensures Balanced(InitialCapacity(n, edges), n, ResidualAfter(InitialCapacity(n, edges), history), flow)
    ensures NetOut(flow, n, source, sink, maxFlow)
    ensures source == sink || !Reachable(ResidualAfter(InitialCapacity(n, edges), history), n, source, sink)
    ensures 0 <= maxFlow <= SumPos(InitialCapacity(n, edges)[source])
    ensures source == sink || !Reachable(InitialCapacity(n, edges), n, source, sink) ==> maxFlow == 0 && history == []
  {
    var adj, capacity := BuildResidual(n, edges);
    ghost var init := capacity;
    var parent := seq(n, _ => None);
    maxFlow := 0;
    flow := ZeroTable(n);
    history := [];
    var step := 0;
    ProgressStart(n, edges, source, sink, adj);
    var found;
    ghost var rank;
    found, parent, rank := BfsCapacity(parent, capacity, adj, n, source, sink);
    ghost var foundFirst := found;
    while found
      invariant Progress(init, n, source, sink, adj, capacity, flow, maxFlow, history)
      invariant |parent| == n && step == |history|
      invariant !foundFirst ==> history == []
      invariant found <==> sink != source && Reachable(capacity, n, source, sink)
      invariant found ==> sink < n && ParentTree(capacity, n, source, parent, rank) && parent[sink].Some?
      decreases SumPos(capacity[source])
    {
      capacity, flow, maxFlow, history, step :=
        AugmentOnce(init, n, source, sink, adj, capacity, flow, maxFlow, history, step, parent, rank);
      SumPosNonNegative(capacity[source]);
      found, parent, rank := BfsCapacity(parent, capacity, adj, n, source, sink);
    }
    HistoryCumulative(init, n, source, sink, history);
    SumPosNonNegative(capacity[source]);
  }
}
