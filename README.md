# Edmonds-Karp max flow with min cut, and a prefix/suffix trie

This project models two small programs and proves properties of the models in Dafny.

**Max flow (task-1/src/edmonds_karp.py).** The residual capacities start from the input edges, and parallel edges are summed. Each round:
- a breadth-first search looks for the sink over edges with positive residual capacity;
- the path is rebuilt from the parent links, and its bottleneck is pushed along it: residual capacity moves to the reverse edges and the flow table changes to match;
- the round is recorded in an audit history holding the path, its bottleneck, the cumulative flow and a snapshot of the residual table.

When the sink can no longer be reached, `min_cut_from_residual` collects the nodes reachable from the source in the final residual table. It lists the original edges that leave this set and sums their capacities.

The model has two parts:
- **Computation.** Nodes are the indices `0..n-1`. Residual and flow tables are `n`-by-`n` integer tables that the methods reassign. The search, the path reconstruction, the augmentation, the main loop and the min cut are methods with loops and invariants.
- **Proofs.** Modules `FlowGraph`, `FlowHistory` and `FlowTheory` prove the following:
  - the history replays step by step;
  - flow is conserved;
  - the loop terminates;
  - the max-flow min-cut equality holds: with non-negative capacities and no parallel edges, the cut found has the capacity of the computed flow.

`Logistics` builds two fixed edge lists:
- the 20-node logistics network;
- the same network with a super source and a super sink added, as the driver builds it.

**Trie (task-2/src/trie.py).** A `Trie` keeps two trees:
- a forward trie of the inserted words;
- a suffix trie of their reversals;
- plus a counter of `insert` calls.

`Homework` adds two queries:
- counting the words with a given suffix, which walks the suffix trie and counts the words below the node it reaches;
- deciding whether any word has a given prefix.

In `TrieNodes` a node is a value: a map from characters to children, and the end marker. `Words(n)` is the set of words stored under a node. `Tries.Trie` is a class holding the two roots and the counter. It also has a ghost record of the inserted words, and its invariant ties the trees to that record. Every query is proved against the set of inserted words:
- lookups are loops that walk one character at a time;
- the subtree walks use an explicit stack, as the source does.

## Model

| member | source | states |
|---|---|---|
| FlowGraph.InitialCapacityIsParallelSum | task-1/src/edmonds_karp.py:47-52 | Each entry of the initial residual table is the total capacity of the input edges for that ordered pair, so parallel edges add up. |
| FlowGraph.InitialCapacityNonNegative | task-1/src/edmonds_karp.py:47-52 | Non-negative edge capacities give a non-negative initial residual table. |
| FlowGraph.OriginalCapsKeys | task-1/src/edmonds_karp.py:105 | A pair is a key of the capacity dictionary of the min cut exactly when some input edge joins it. |
| FlowGraph.NoParallelCapOf | task-1/src/edmonds_karp.py:105 | Without parallel edges, that dictionary agrees with the summed initial table. |
| FlowGraph.ParallelEdgesQuirk | task-1/src/edmonds_karp.py:105 | With two parallel edges of capacity 2 and 3, the residual table holds 5 but the dictionary keeps only the later 3. |
| FlowGraph.ClosedContainsReachable | task-1/src/edmonds_karp.py:91-101 | Every node reachable from inside a set that no positive edge leaves stays inside it. |
| FlowGraph.SimplePathNodes | task-1/src/edmonds_karp.py:78 | The node list of a simple path has one more node than the path has edges. It starts at the source, ends at the sink and names only valid nodes. |
| FlowGraph.PathNetShift | task-1/src/edmonds_karp.py:72-76 | Pushing b along a simple path changes a node's net outflow by b at the source, by -b at the sink, and by nothing elsewhere. |
| EdmondsKarp.BuildResidual | task-1/src/edmonds_karp.py:46-52 | The adjacency holds v for u exactly when an edge joins them in either direction. The capacity table is the summed initial table, and every positive entry is an adjacency. |
| EdmondsKarp.ParentChainReaches | task-1/src/edmonds_karp.py:19-32 | Following parent links from a discovered node reaches the source over positive edges. |
| EdmondsKarp.ExpandNode | task-1/src/edmonds_karp.py:25-31 | One dequeued node's neighbours are scanned. Either the sink is discovered with a valid parent tree, or the search invariant holds with that node done. |
| EdmondsKarp.BfsCapacity | task-1/src/edmonds_karp.py:19-32 | It returns true exactly when the sink differs from the source and is reachable over positive residual edges. The parent links then form a tree that reaches the sink. |
| EdmondsKarp.ReconstructPath | task-1/src/edmonds_karp.py:61-69 | The rebuilt path is the parent chain: every edge (u, v) on it has parent[v] = u. It is a simple path from source to sink over positive edges. The bottleneck is its minimum capacity and is at least 1. |
| EdmondsKarp.PushPair | task-1/src/edmonds_karp.py:73-76 | Entry (u, v) gains d, entry (v, u) loses d, and every other entry is unchanged. |
| EdmondsKarp.PushPairSums | task-1/src/edmonds_karp.py:73-76 | That update raises row u's sum by d, lowers row v's sum by d, and leaves other rows unchanged. |
| EdmondsKarp.Augment | task-1/src/edmonds_karp.py:72-76 | The residual table loses b on each path edge and gains b on its reverse, and the flow table changes the opposite way. Net flow out of the source rises by b and out of the sink falls by b. |
| FlowTheory.AugmentBalanced | task-1/src/edmonds_karp.py:72-76 | Augmenting keeps residual plus flow equal to the initial capacities and keeps flow skew-symmetric. No path edge goes negative. |
| FlowTheory.BalancedPairSum | task-1/src/edmonds_karp.py:72-76 | While the tables stay balanced, the residual capacities of a pair and its reverse add up to their initial capacities: augmenting only moves capacity between the two directions. |
| FlowTheory.AugmentSourceRow | task-1/src/edmonds_karp.py:72-74 | Each augmentation lowers the source's positive residual capacity by exactly the bottleneck. |
| FlowTheory.FlowWithinCapacity | task-1/src/edmonds_karp.py:72-76 | With non-negative capacities no residual entry goes negative and no flow exceeds its initial capacity. |
| EdmondsKarp.AugmentCovers | task-1/src/edmonds_karp.py:72-76 | Every positive residual entry after an augmentation is still an adjacency the search scans. |
| EdmondsKarp.ProgressStep | task-1/src/edmonds_karp.py:60-78 | One round keeps the loop invariant: tables balanced, conservation, flow value equal to the source's lost capacity, and a history that replays. It extends the history by one record and strictly lowers the termination measure. |
| EdmondsKarp.AugmentOnce | task-1/src/edmonds_karp.py:60-78 | The loop body: it rebuilds the path, pushes its bottleneck and records the step, keeping the invariant and lowering the measure. |
| EdmondsKarp.EdmondsKarp | task-1/src/edmonds_karp.py:35-83 | The history replays from the initial table, and the flow value is the sum of the bottlenecks and the last cumulative flow. Flow is conserved with balanced tables, and at the end the sink is unreachable. The value lies between 0 and the source's capacity. When the sink equals the source or was never reachable, the flow is 0 and the history is empty. |
| FlowHistory.HistoryExtend | task-1/src/edmonds_karp.py:78 | Appending a record that replays from the current table keeps the history valid. The record becomes the last snapshot and the last cumulative flow. |
| FlowHistory.HistoryCumulative | task-1/src/edmonds_karp.py:77-78 | The last cumulative flow equals the sum of all bottlenecks. |
| FlowHistory.HistoryStepAt | task-1/src/edmonds_karp.py:78 | Record k replays from the residual table that its predecessors leave. |
| FlowHistory.HistoryRunningSum | task-1/src/edmonds_karp.py:77-78 | Record k carries the running sum of the bottlenecks up to it. |
| FlowHistory.HistoryPrefix | task-1/src/edmonds_karp.py:78 | Every prefix of a valid history is valid. |
| FlowHistory.HistorySteps | task-1/src/edmonds_karp.py:71-78 | Steps are numbered 1, 2, … in order. Every bottleneck is at least 1, and every cumulative flow is the running sum. |
| FlowHistory.HistoryIncreasing | task-1/src/edmonds_karp.py:77-78 | Cumulative flow strictly increases along the history. |
| FlowHistory.HistoryPaths | task-1/src/edmonds_karp.py:78 | Each record's node list runs from source to sink, has one more node than the path has edges, and repeats no node. |
| FlowTheory.CutFlowIsCapacity | task-1/src/edmonds_karp.py:86-111 | On pairs that leave a closed source side, the flow equals the original capacity. |
| FlowTheory.CutFlowIsValue | task-1/src/edmonds_karp.py:86-111 | The flow leaving a source side that excludes the sink (or carries flow 0) is the flow value. |
| FlowTheory.MaxFlowMinCut | task-1/src/edmonds_karp.py:86-111 | Take capacities that are non-negative with no parallel edges. For any source side that holds the source, that no positive residual edge leaves, and that holds the sink only if the flow is 0, the original capacity of the cut equals the flow value. |
| MinCut.EnqueueSuccessors | task-1/src/edmonds_karp.py:98-100 | The queue keeps its old entries and gains only unvisited positive-residual successors of u, and gains every one of them. |
| MinCut.SourceSide | task-1/src/edmonds_karp.py:91-100 | The visited set contains the source, no positive residual edge leaves it, and it holds exactly the nodes reachable from the source. |
| MinCut.CutRow | task-1/src/edmonds_karp.py:107-110 | Scanning one source-side row keeps the edges listed so far, adds every dictionary pair from that row into T, and adds exactly the row's capacities into T to the sum. |
| MinCut.CutEdges | task-1/src/edmonds_karp.py:103-110 | Every listed edge goes from S to T with its dictionary capacity, and every such dictionary pair is listed. The sum is both the listed total and the masked table total. |
| MinCut.MinCutFromResidual | task-1/src/edmonds_karp.py:86-111 | S is exactly the set reachable in the residual table, and T is the other nodes. The cut edges are sound and complete for the dictionary, and their sum is the cut capacity. |
| MinCut.MaxFlowAndMinCut | task-1/src/edmonds_karp.py:157-178 | With the corrected fallback, the cut's source side holds the source and not the sink. With non-negative capacities and no parallel edges, the cut capacity equals the maximum flow. |
| MinCut.EmptyHistoryFallback | task-1/src/edmonds_karp.py:176 | On three nodes with one edge 0→1 of capacity 5 and sink 2, nothing is augmented. The as-written fallback reaches only the source and reports a cut of 5; the initial table reaches {0, 1} and gives 0. |
| Logistics.TerminalEdges | task-1/src/edmonds_karp.py:130-135 | The six terminal-to-warehouse edges leave nodes 0-1, enter nodes 2-5, have non-negative capacities and are not parallel. |
| Logistics.ShopEdges | task-1/src/edmonds_karp.py:137-152 | The fourteen warehouse-to-shop edges leave nodes 2-5 and the k-th of them enters shop k + 1, with non-negative capacities. |
| Logistics.FeedEdges | task-1/src/edmonds_karp.py:165-167 | The logistics edges with the two super-source edges are 22 non-parallel edges with non-negative capacities that enter only original nodes. |
| Logistics.LogisticsEdges | task-1/src/edmonds_karp.py:129-152 | The 20 logistics edges name nodes below 20, have non-negative capacities and include no parallel edges. |
| Logistics.Incoming | task-1/src/edmonds_karp.py:169-171 | The capacity into a node is non-negative when all capacities are. |
| Logistics.DriverEdges | task-1/src/edmonds_karp.py:163-171 | With the super source and super sink the network has 36 edges over 22 nodes. Capacities are non-negative and no edges are parallel. |
| Logistics.LogisticsMaxFlowMinCut | task-1/src/edmonds_karp.py:173-177 | On the logistics network, the super source is on the cut's source side and the super sink is not, the cut edges are sound, and the cut capacity equals the maximum flow. |
| TrieNodes.Reverse | task-2/src/trie.py:32 | The reversal has the same length, and position i holds the character at position |s|-1-i. |
| TrieNodes.ReverseReverse | task-2/src/trie.py:32 | Reversing twice gives back the word. |
| TrieNodes.PathsWalk | task-2/src/trie.py:57-66 | A node's paths are exactly the strings that can be walked from it. |
| TrieNodes.WordsWalk | task-2/src/trie.py:46-55 | A node's words are exactly the strings whose walk ends at a marked node. |
| TrieNodes.WalkAppend | task-2/src/trie.py:57-66 | Walking p + q means walking p, then walking q from where p ends. |
| TrieNodes.InsertWords | task-2/src/trie.py:25-30 | Inserting w adds exactly w to the stored words, so every earlier word stays stored. |
| TrieNodes.InsertPruned | task-2/src/trie.py:25-38 | After an insert, every node below the root still stores a word. |
| TrieNodes.PrefixWords | task-2/src/trie.py:119-140 | Some stored word starts with p exactly when the walk of p succeeds and the node it reaches stores a word. |
| TrieNodes.PrunedPaths | task-2/src/trie.py:68-77 | In a trie built by inserts, a path exists exactly for the empty string and for prefixes of stored words. |
| TrieNodes.FrontierPop | task-2/src/trie.py:84-91 | Popping the stack visits a path that has not been visited before, and queues the paths of its children. |
| TrieNodes.FrontierPush | task-2/src/trie.py:89-91 | Pushing a queued child keeps the walk's bookkeeping. |
| TrieNodes.FrontierDone | task-2/src/trie.py:85-92 | Once the stack is empty, every path of the subtree has been visited. |
| TrieNodes.ReversalsMirror | task-2/src/trie.py:32-38 | A string is in the suffix trie's set exactly when its reversal is an inserted word. |
| TrieNodes.SuffixCount | task-2/src/trie.py:115-117 | Below the node of the reversed pattern, the suffix trie stores one word per distinct word ending with the pattern. That node is absent when no word ends with it. |
| Tries.PushChildren | task-2/src/trie.py:89-91 | The popped node's children are pushed behind the untouched stack, each child exactly once, in some order of the node's keys. |
| Tries.PushAll | task-2/src/trie.py:89-91 | Pushing the children under every remaining key, each once, leaves the walk's bookkeeping intact with nothing left to queue. |
| Tries.WalkAdvance | task-2/src/trie.py:84-91 | One round of the stack walk visits a path not visited before and keeps the walk's bookkeeping. |
| Tries.VisitStep | task-2/src/trie.py:87-88 | Visiting a fresh path adds one word exactly when its node is marked, and the walk's measure drops. |
| Tries.WalkDone | task-2/src/trie.py:85-92 | Once the stack is empty, every word below the walk's root has been visited. |
| Tries.Trie.constructor | task-2/src/trie.py:15-19 | Both roots start empty, the counter is 0, and no word is stored. |
| Tries.Trie.Insert | task-2/src/trie.py:21-40 | The forward trie gains the word, the suffix trie gains its reversal, and the counter goes up by one. The invariant holds. |
| Tries.Trie.Put | task-2/src/trie.py:42-44 | The same new state as Insert; the value is ignored. |
| Tries.Trie.Contains | task-2/src/trie.py:46-55 | True exactly when the word was inserted, so a proper prefix of a stored word is false unless it was inserted itself. |
| Tries.Trie.NodeForPrefix | task-2/src/trie.py:57-66 | The node at the end of the prefix, walked from the given root (by default the forward root), or None when a step is missing. |
| Tries.Trie.StartsWith | task-2/src/trie.py:68-77 | True exactly when the prefix is empty or is a prefix of an inserted word. |
| Tries.Trie.CountWordsInSubtree | task-2/src/trie.py:79-92 | The number of distinct words stored under the node; 0 for no node. |
| Tries.Trie.CountWordsWithSuffix | task-2/src/trie.py:104-117 | For the empty pattern, the number of insert calls. Otherwise, the number of distinct inserted words that end with the pattern. |
| Tries.Trie.HasPrefix | task-2/src/trie.py:119-140 | True exactly when some inserted word starts with the prefix, which for the empty prefix means some word was inserted. |
| Tries.RepeatedInsertCounts | task-2/src/trie.py:113-117 | In a new trie into which a non-empty word w is inserted twice, the empty pattern counts 2 and the pattern w counts 1. |
| Tries.SampleSuffixes | task-2/tests/test_trie.py:15-16 | Among the fixture words, only "apple" ends with "le" and only "app" ends with "pp". |
| Tries.SampleTrie | task-2/tests/test_trie.py:6-10 | Inserting the fixture words in order gives a valid trie whose record is exactly those words. |
| Tries.SampleCounts | task-2/tests/test_trie.py:13-17 | On the fixture, "le" and "pp" each end one word and the empty pattern counts all seven. |
| Tries.SampleLookups | task-2/tests/test_trie.py:21-44 | On the fixture, "app" is a word and "ap" is not, "ap" is a path, some word starts with "app" and none with "z". |

## Left out

- Console output is not modelled: the verbose printing (task-1/src/edmonds_karp.py:80-81), the printing in the driver, and all of task-1/src/main.py.
- Node labels are the indices `0..n-1`. Mapping the source's arbitrary labels to indices is not modelled. An edge naming an unknown node raises `KeyError` in the source, so it becomes a precondition (`EdgesWithin`).
- The source node must be below `n`, because `adj[source]` raises otherwise. The sink may be any value; one that is never discovered gives flow 0.
- The code does not validate its input. It neither rejects negative capacities, self-loops or a sink that is not a node, nor returns early when the sink equals the source. The model follows the code: its loop simply never finds a path from the source to itself. The theorems that need non-negative capacities or the absence of parallel edges state these as hypotheses.
- The bottleneck starts from `float('inf')` in the source. Every path has at least one edge, so the model starts from the first edge's capacity instead; floats are not modelled.
- Neighbours are scanned, and children pushed, in an order chosen non-deterministically. Python sets have no defined iteration order, and dicts iterate in insertion order. The model allows any order, so every contract holds for both.
- EdmondsKarp.BfsCapacity: does not state that the path found is a shortest one. The O(V·E²) bound of Edmonds-Karp is not modelled; termination is proved from the source's positive residual capacity, which drops on every round.
- The residual snapshot `{u: dict(capacity[u])}` and the residual dictionary are dense tables. Missing keys and keys that hold 0 are not distinguished, and no lookup depends on the difference.
- EdmondsKarp.PushPair: performs the four updates of lines 73-76 as two table updates (residual, then flow), each touching (u, v) and then (v, u). A simple path never has u == v, so this is the same result.
- MinCut.CutEdges: scans the source side in ascending node order, while the source iterates a Python set. The contract fixes which edges are listed and their sum, not their order.
- MinCut.MaxFlowAndMinCut: states the cut equality only for non-negative capacities without parallel edges. With parallel edges the cut's dictionary keeps only the last capacity (FlowGraph.ParallelEdgesQuirk).
- The `__main__` driver of task-1/src/edmonds_karp.py is modelled by the two edge lists, the corrected MinCut.MaxFlowAndMinCut and Logistics.LogisticsMaxFlowMinCut, which applies it to the logistics network. The exact maximum flow of the logistics network is not computed.
- The `isinstance` checks that raise `TypeError` (task-2/src/trie.py:23, 48, 75, 111, 125) cannot fail on Dafny's typed strings.
- `Trie.words` (task-2/src/trie.py:94-98) is not modelled. It calls `_collect_from_node`, which the class does not define, so it has no behaviour to specify.
- Tries.Trie.Insert: trie nodes are values, so the character loops of lines 25-30 and 33-38 that create missing children in place become the recursive function `TrieNodes.InsertPath`, which rebuilds the changed path. No node is shared between the tries or seen from outside, so aliasing is not observable.
- The "_end" key of a node is the boolean field `end`. It is four characters long, so it never clashes with a one-character child key. For the same reason the walks never see it among a node's children.
- `Homework` is not a separate subclass: its two methods are members of `Tries.Trie`, because the model has no inheritance.
- Tries.Trie.Put: the ignored value is a parameter of any type.

## Findings

| source | as written | input that shows it | evidently intended | confidence | as-written member | corrected member |
|---|---|---|---|---|---|---|
| task-1/src/edmonds_karp.py:176 | With an empty history, the residual handed to `min_cut_from_residual` is `{n: {}}` for every node, in which no edge has capacity. The source side is then only the source. | Nodes 0, 1, 2, one edge 0→1 of capacity 5, source 0, sink 2. The max flow is 0, but the reported cut {0} has capacity 5. | With no augmentation the residual table is the initial capacity table, which gives source side {0, 1} and a cut of 0, equal to the flow. | not executed | MinCut.EmptyHistoryFallback | MinCut.MaxFlowAndMinCut |
