/** The concrete network of task-1/src/edmonds_karp.py: build_logistics_graph
    (lines 114-154) and the super-source / super-sink network the driver
    builds around it (lines 158-171). */
module Logistics {
  import opened FlowGraph
  import opened FlowTheory
  import opened MinCut

  /** Terminals T1, T2 are nodes 0 and 1. */
  function Terminal(i: nat): nat
    requires 1 <= i <= 2
  {
    i - 1
  }

  /** Warehouses W1..W4 are nodes 2..5. */
  function Warehouse(i: nat): nat
    requires 1 <= i <= 4
  {
    i + 1
  }

  /** Shops S1..S14 are nodes 6..19. */
  function Shop(i: nat): nat
    requires 1 <= i <= 14
  {
    i + 5
  }

  const NodeCount: nat := 20
  const SuperSource: nat := 20
  const SuperSink: nat := 21

  /** The six edges from the terminals to the warehouses (lines 130-135). */
  function TerminalEdges(): (es: seq<Edge>)
    ensures |es| == 6 && NoParallelEdges(es)
    ensures forall k :: 0 <= k < 6 ==> es[k].u < 2 && 2 <= es[k].v < 6 && es[k].c >= 0
  {
    [ Edge(Terminal(1), Warehouse(1), 25), Edge(Terminal(1), Warehouse(2), 20), Edge(Terminal(1), Warehouse(3), 15),
      Edge(Terminal(2), Warehouse(3), 15), Edge(Terminal(2), Warehouse(4), 30), Edge(Terminal(2), Warehouse(2), 10) ]
  }

  /** The fourteen edges from the warehouses to the shops (lines 137-152):
      edge k enters shop k + 1, so no two of them are parallel. */
  function ShopEdges(): (es: seq<Edge>)
    ensures |es| == 14
    ensures forall k :: 0 <= k < 14 ==> 2 <= es[k].u < 6 && es[k].v == Shop(k + 1) && es[k].c >= 0
  {
    [ Edge(Warehouse(1), Shop(1), 15), Edge(Warehouse(1), Shop(2), 10), Edge(Warehouse(1), Shop(3), 20),
      Edge(Warehouse(2), Shop(4), 15), Edge(Warehouse(2), Shop(5), 10), Edge(Warehouse(2), Shop(6), 25),
      Edge(Warehouse(3), Shop(7), 20), Edge(Warehouse(3), Shop(8), 15), Edge(Warehouse(3), Shop(9), 10),
      Edge(Warehouse(4), Shop(10), 20), Edge(Warehouse(4), Shop(11), 10), Edge(Warehouse(4), Shop(12), 15),
      Edge(Warehouse(4), Shop(13), 5), Edge(Warehouse(4), Shop(14), 10) ]
  }

  /** The 20 edges of the logistics network, in the order of lines 129-152. */
  function LogisticsEdges(): (es: seq<Edge>)
    ensures |es| == 20 && EdgesWithin(es, NodeCount) && NonNegative(es) && NoParallelEdges(es)
  {
    var a, b := TerminalEdges(), ShopEdges();
    NoParallelJoin(a, b);
    a + b
  }

  /** Total capacity into v (the generator at line 170). */
  function Incoming(es: seq<Edge>, v: nat): (c: int)
    ensures NonNegative(es) ==> c >= 0
  {
    if |es| == 0 then 0
    else Incoming(es[..|es| - 1], v) + (if es[|es| - 1].v == v then es[|es| - 1].c else 0)
  }

  /** Two edge lists without parallel edges, sharing no (u, v) pair, join
      into one without parallel edges. */
  lemma NoParallelJoin(a: seq<Edge>, b: seq<Edge>)
    requires NoParallelEdges(a) && NoParallelEdges(b)
    requires forall i, j :: 0 <= i < |a| && 0 <= j < |b| ==> a[i].u != b[j].u || a[i].v != b[j].v
    ensures NoParallelEdges(a + b)
  {
    var c := a + b;
    forall i, j | 0 <= i < j < |c|
      ensures c[i].u != c[j].u || c[i].v != c[j].v
    {
      if j < |a| {
        assert c[i] == a[i] && c[j] == a[j];
      } else if i < |a| {
        assert c[i] == a[i] && c[j] == b[j - |a|];
      } else {
        assert c[i] == b[i - |a|] && c[j] == b[j - |a|];
      }
    }
  }

  /** The super-source edges of line 167. */
  function SourceEdges(): seq<Edge>
  {
    [Edge(SuperSource, Terminal(1), 25 + 20 + 15), Edge(SuperSource, Terminal(2), 15 + 30 + 10)]
  }

  /** The super-sink edges of lines 169-171: each shop drains what flows into it. */
  function SinkEdges(base: seq<Edge>): (es: seq<Edge>)
    ensures |es| == 14
    ensures forall i :: 0 <= i < 14 ==> es[i] == Edge(Shop(i + 1), SuperSink, Incoming(base, Shop(i + 1)))
  {
    seq(14, i requires 0 <= i < 14 => Edge(Shop(i + 1), SuperSink, Incoming(base, Shop(i + 1))))
  }

  /** The logistics edges followed by the super-source edges (lines 165-167). */
  function FeedEdges(): (es: seq<Edge>)
    ensures |es| == 22 && NoParallelEdges(es)
    ensures forall k :: 0 <= k < 22 ==> es[k].u <= SuperSource && es[k].v < NodeCount && es[k].c >= 0
  {
    var base := LogisticsEdges();
    NoParallelJoin(base, SourceEdges());
    base + SourceEdges()
  }

  /** The network of lines 163-171: the logistics edges, the super-source
      feeding each terminal its total outgoing capacity, and every shop
      draining its total incoming capacity into the super-sink. */
  function DriverEdges(): (es: seq<Edge>)
    ensures |es| == 36 && EdgesWithin(es, NodeCount + 2) && NonNegative(es) && NoParallelEdges(es)
  {
    var feed, sinks := FeedEdges(), SinkEdges(LogisticsEdges());
    NoParallelJoin(feed, sinks);
    feed + sinks
  }

  /** The driver run on the network of lines 163-171 (lines 173-177, with the
      corrected fallback of line 176): the super source ends on the source
      side, the super sink on the other, and the cut capacity equals the
      maximum flow. */
  method LogisticsMaxFlowMinCut() returns (maxFlow: int, S: set<nat>, T: set<nat>, cutEdges: seq<Edge>, cutCapacity: int)
    ensures SuperSource in S && SuperSink !in S && T == NodeSet(NodeCount + 2) - S
    ensures CutEdgesSound(cutEdges, S, T, OriginalCaps(DriverEdges()))
    ensures cutCapacity == CapSum(cutEdges) == maxFlow
  {
    maxFlow, S, T, cutEdges, cutCapacity := MaxFlowAndMinCut(NodeCount + 2, DriverEdges(), SuperSource, SuperSink);
  }
}
