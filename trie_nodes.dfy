/** The nested child maps of task-2/src/trie.py as values: a node is its
    children keyed by character plus the end marker, and what a tree of
    nodes stores is the set of words that end at a marked node. */
module TrieNodes {
  import opened Wrappers

  /** A TrieNode (trie.py:4-5): the children by character, and whether the
      "_end" key is set. That key is four characters long, so it never
      clashes with the one-character keys of the children. */
  datatype Node = Node(children: map<char, Node>, end: bool)

  /** A fresh TrieNode(): no children, no end marker. */
  const Empty: Node := Node(map[], false)

  /** The node reached by following the characters of w from n, if every
      step has a child. */
  function Walk(n: Node, w: string): Option<Node>
    decreases |w|
  {
    if w == [] then Some(n)
    else if w[0] in n.children then Walk(n.children[w[0]], w[1..])
    else None
  }

  /** The paths from n to its nodes. */
  function Paths(n: Node): set<string>
  {
    {[]} + (set k, q | k in n.children && q in Paths(n.children[k]) :: [k] + q)
  }

  /** The words stored under n: the paths that end at a marked node. */
  function Words(n: Node): set<string>
  {
    (if n.end then {[]} else {}) + (set k, q | k in n.children && q in Words(n.children[k]) :: [k] + q)
  }

  /** Every node below the root stores at least one word: insert only ever
      adds the nodes of a path whose last node it marks. */
  ghost predicate Pruned(n: Node)
  {
    forall k :: k in n.children ==> Words(n.children[k]) != {} && Pruned(n.children[k])
  }

  /** The tree after insert has walked w from n, adding missing children,
      and marked the last node (trie.py:25-30 and 33-38). */
  function InsertPath(n: Node, w: string): Node
    decreases |w|
  {
    if w == [] then n.(end := true)
    else
      var child := if w[0] in n.children then n.children[w[0]] else Empty;
      n.(children := n.children[w[0] := InsertPath(child, w[1..])])
  }

  lemma PathsCons(n: Node, x: string)
    requires x != []
    ensures x in Paths(n) <==> x[0] in n.children && x[1..] in Paths(n.children[x[0]])
  {
    assert x == [x[0]] + x[1..];
  }

  lemma WordsCons(n: Node, x: string)
    requires x != []
    ensures x in Words(n) <==> x[0] in n.children && x[1..] in Words(n.children[x[0]])
  {
    assert x == [x[0]] + x[1..];
  }

  /** The paths of n are exactly the strings that can be walked from n. */
  lemma {:induction false} PathsWalk(n: Node, x: string)
    ensures x in Paths(n) <==> Walk(n, x).Some?
    decreases |x|
  {
    if x != [] {
      PathsCons(n, x);
      if x[0] in n.children {
        PathsWalk(n.children[x[0]], x[1..]);
      }
    }
  }

  /** The words of n are exactly the strings whose walk ends at a marked node. */
  lemma {:induction false} WordsWalk(n: Node, x: string)
    ensures x in Words(n) <==> Walk(n, x).Some? && Walk(n, x).value.end
    decreases |x|
  {
    if x != [] {
      WordsCons(n, x);
      if x[0] in n.children {
        WordsWalk(n.children[x[0]], x[1..]);
      }
    }
  }

  lemma WordsArePaths(n: Node)
    ensures Words(n) <= Paths(n)
  {
    forall x | x in Words(n)
      ensures x in Paths(n)
    {
      WordsWalk(n, x);
      PathsWalk(n, x);
    }
  }

  /** Walking p + q is walking p, then q from where p ends. */
  lemma {:induction false} WalkAppend(n: Node, p: string, q: string)
    ensures Walk(n, p + q) == if Walk(n, p).Some? then Walk(Walk(n, p).value, q) else None
    decreases |p|
  {
    if p != [] {
      assert (p + q)[0] == p[0] && (p + q)[1..] == p[1..] + q;
      if p[0] in n.children {
        WalkAppend(n.children[p[0]], p[1..], q);
      }
    } else {
      assert p + q == q;
    }
  }

  /** One more step of a walk that has reached m. */
  lemma WalkStep(n: Node, p: string, m: Node, c: char)
    requires Walk(n, p) == Some(m)
    ensures Walk(n, p + [c]) == if c in m.children then Some(m.children[c]) else None
  {
    WalkAppend(n, p, [c]);
  }

  /** A walk that fails on a prefix fails on the whole string. */
  lemma WalkStuck(n: Node, p: string, w: string)
    requires p <= w && Walk(n, p).None?
    ensures Walk(n, w).None?
  {
    WalkAppend(n, p, w[|p|..]);
    assert p + w[|p|..] == w;
  }

  lemma {:induction false} EmptyWalk(x: string)
    ensures Walk(Empty, x) == if x == [] then Some(Empty) else None
  {
  }

  /** Inserting w marks the end of w and changes no other string's membership. */
  lemma {:induction false} InsertWalk(n: Node, w: string, x: string)
    ensures x in Words(InsertPath(n, w)) <==> x in Words(n) || x == w
    decreases |w|
  {
    var n' := InsertPath(n, w);
    WordsWalk(n, x);
    WordsWalk(n', x);
    if w != [] && x != [] && x[0] == w[0] {
      var child := if w[0] in n.children then n.children[w[0]] else Empty;
      InsertWalk(child, w[1..], x[1..]);
      WordsWalk(child, x[1..]);
      WordsWalk(InsertPath(child, w[1..]), x[1..]);
      EmptyWalk(x[1..]);
      assert x == w <==> x[1..] == w[1..] by {
        assert x == [x[0]] + x[1..] && w == [w[0]] + w[1..];
      }
    }
  }

  /** insert adds exactly w to the words stored (trie.py:25-30). */
  lemma InsertWords(n: Node, w: string)
    ensures Words(InsertPath(n, w)) == Words(n) + {w}
  {
    forall x
      ensures x in Words(InsertPath(n, w)) <==> x in Words(n) + {w}
    {
      InsertWalk(n, w, x);
    }
  }

  /** insert keeps every node below the root holding a word. */
  lemma {:induction false} InsertPruned(n: Node, w: string)
    requires Pruned(n)
    ensures Pruned(InsertPath(n, w))
    decreases |w|
  {
    if w != [] {
      var child := if w[0] in n.children then n.children[w[0]] else Empty;
      var sub := InsertPath(child, w[1..]);
      InsertPruned(child, w[1..]);
      InsertWords(child, w[1..]);
      assert w[1..] in Words(sub);
      PrunedUpdate(n, w[0], sub);
    }
  }

  /** Replacing one child by a pruned node that stores a word keeps a pruned node pruned. */
  lemma PrunedUpdate(n: Node, c: char, sub: Node)
    requires Pruned(n) && Pruned(sub) && Words(sub) != {}
    ensures Pruned(n.(children := n.children[c := sub]))
  {
    var m := n.(children := n.children[c := sub]);
    forall k | k in m.children
      ensures Words(m.children[k]) != {} && Pruned(m.children[k])
    {
      if k != c {
        assert m.children[k] == n.children[k];
      }
    }
  }

  // ---------------------------------------------------------------------
  // Prefixes

  /** Some word under n starts with p exactly when the walk of p succeeds
      and the node it reaches stores a word. */
  lemma PrefixWords(n: Node, p: string)
    ensures (exists w :: w in Words(n) && p <= w) <==> Walk(n, p).Some? && Words(Walk(n, p).value) != {}
  {
    if exists w :: w in Words(n) && p <= w {
      var w :| w in Words(n) && p <= w;
      WordsWalk(n, w);
      WalkAppend(n, p, w[|p|..]);
      assert p + w[|p|..] == w;
      WordsWalk(Walk(n, p).value, w[|p|..]);
    }
    if Walk(n, p).Some? && Words(Walk(n, p).value) != {} {
      var m := Walk(n, p).value;
      var r :| r in Words(m);
      WordsWalk(m, r);
      WalkAppend(n, p, r);
      WordsWalk(n, p + r);
      assert p <= p + r;
    }
  }

  /** Below the root of a pruned tree every node stores a word. */
  lemma {:induction false} PrunedBelow(n: Node, p: string)
    requires Pruned(n) && Walk(n, p).Some?
    ensures Pruned(Walk(n, p).value)
    ensures p != [] ==> Words(Walk(n, p).value) != {}
    decreases |p|
  {
    if p != [] {
      var child := n.children[p[0]];
      PrunedBelow(child, p[1..]);
      if p[1..] == [] {
        assert Walk(n, p) == Some(child);
      }
    }
  }

  /** In a pruned tree a path exists exactly for the empty string and the
      prefixes of stored words (the note at trie.py:69-73). */
  lemma PrunedPaths(n: Node, p: string)
    requires Pruned(n)
    ensures Walk(n, p).Some? <==> p == [] || exists w :: w in Words(n) && p <= w
  {
    PrefixWords(n, p);
    if Walk(n, p).Some? {
      PrunedBelow(n, p);
    }
  }

  // ---------------------------------------------------------------------
  // Stack walks over a subtree

  /** stack[i] is the node at path pending[i]. */
  ghost predicate StackAt(top: Node, stack: seq<Node>, pending: seq<string>)
  {
    |pending| == |stack| && forall i :: 0 <= i < |stack| ==> Walk(top, pending[i]) == Some(stack[i])
  }

  /** Every queued path leads to a node. */
  ghost predicate QueuedAt(top: Node, more: set<string>)
  {
    forall y :: y in more ==> Walk(top, y).Some?
  }

  /** No pending or queued path is a prefix of another. */
  ghost predicate PrefixFree(pending: seq<string>, more: set<string>)
  {
    && (forall i, j :: 0 <= i < |pending| && 0 <= j < |pending| && i != j ==> !(pending[i] <= pending[j]))
    && (forall i, y :: 0 <= i < |pending| && y in more ==> !(pending[i] <= y) && !(y <= pending[i]))
    && (forall y, z :: y in more && z in more && y != z ==> !(y <= z))
  }

  /** No pending or queued path is a prefix of x. */
  ghost predicate Unreached(pending: seq<string>, more: set<string>, x: string)
  {
    (forall i :: 0 <= i < |pending| ==> !(pending[i] <= x)) && (forall y :: y in more ==> !(y <= x))
  }

  /** A path of top has been visited exactly when no pending or queued path
      is a prefix of it. */
  ghost predicate Covered(top: Node, pending: seq<string>, more: set<string>, visited: set<string>)
  {
    visited <= Paths(top) && forall x :: x in Paths(top) ==> (x in visited <==> Unreached(pending, more, x))
  }

  /** The state of a depth-first walk of the subtree of top with an explicit
      stack (trie.py:84-91 and 131-139): more holds the paths still to be
      pushed while a node's children are handled. */
  ghost predicate Frontier(top: Node, stack: seq<Node>, pending: seq<string>, more: set<string>, visited: set<string>)
  {
    StackAt(top, stack, pending) && QueuedAt(top, more) && PrefixFree(pending, more) && Covered(top, pending, more, visited)
  }

  lemma FrontierStart(top: Node)
    ensures Frontier(top, [top], [[]], {}, {})
  {
    var pending: seq<string> := [[]];
    forall x | x in Paths(top)
      ensures !Unreached(pending, {}, x)
    {
      assert pending[0] <= x;
    }
  }

  /** The paths one step below p. */
  ghost function ChildPaths(p: string, keys: set<char>): (r: set<string>)
    ensures forall k :: k in keys ==> p + [k] in r
    ensures forall y :: y in r ==> |y| == |p| + 1 && y[..|p|] == p && y[|p|] in keys
  {
    set k | k in keys :: p + [k]
  }

  lemma ChildPathsRemove(p: string, keys: set<char>, k: char)
    requires k in keys
    ensures ChildPaths(p, keys) - {p + [k]} == ChildPaths(p, keys - {k})
  {
    forall y | y in ChildPaths(p, keys) - {p + [k]}
      ensures y in ChildPaths(p, keys - {k})
    {
      assert y == p + [y[|p|]];
    }
  }

  /** Coverage of one path after popping the node at p and queueing its children. */
  lemma PopCovers(top: Node, pending: seq<string>, p: string, cur: Node, visited: set<string>, x: string)
    requires Walk(top, p) == Some(cur)
    requires forall i :: 0 <= i < |pending| ==> !(pending[i] <= p)
    requires x in Paths(top)
    requires x in visited <==> Unreached(pending, {}, x) && !(p <= x)
    ensures x in visited + {p} <==> Unreached(pending, ChildPaths(p, cur.children.Keys), x)
  {
    var more := ChildPaths(p, cur.children.Keys);
    if x != p && p <= x {
      var k := x[|p|];
      var y := p + [k];
      assert y <= x;
      PathsWalk(top, x);
      if Walk(top, y).None? {
        WalkStuck(top, y, x);
      }
      WalkStep(top, p, cur, k);
      assert y in more;
    }
  }

  lemma PopFree(pending: seq<string>, p: string, keys: set<char>)
    requires PrefixFree(pending + [p], {})
    ensures PrefixFree(pending, ChildPaths(p, keys))
  {
    var all := pending + [p];
    forall i | 0 <= i < |pending|
      ensures !(pending[i] <= p) && !(p <= pending[i])
    {
      assert all[i] == pending[i] && all[|pending|] == p;
    }
    forall i, j | 0 <= i < |pending| && 0 <= j < |pending| && i != j
      ensures !(pending[i] <= pending[j])
    {
      assert all[i] == pending[i] && all[j] == pending[j];
    }
  }

  lemma PopQueued(top: Node, p: string, cur: Node)
    requires Walk(top, p) == Some(cur)
    ensures QueuedAt(top, ChildPaths(p, cur.children.Keys))
  {
    forall y | y in ChildPaths(p, cur.children.Keys)
      ensures Walk(top, y).Some?
    {
      WalkStep(top, p, cur, y[|p|]);
      assert y == p + [y[|p|]];
    }
  }

  lemma PopCovered(top: Node, pending: seq<string>, p: string, cur: Node, visited: set<string>)
    requires Walk(top, p) == Some(cur)
    requires forall i :: 0 <= i < |pending| ==> !(pending[i] <= p)
    requires p in Paths(top)
    requires Covered(top, pending + [p], {}, visited)
    ensures Covered(top, pending, ChildPaths(p, cur.children.Keys), visited + {p})
  {
    var all := pending + [p];
    forall x | x in Paths(top)
      ensures x in visited + {p} <==> Unreached(pending, ChildPaths(p, cur.children.Keys), x)
    {
      assert Unreached(all, {}, x) <==> Unreached(pending, {}, x) && !(p <= x) by {
        assert all[|pending|] == p;
        assert forall i :: 0 <= i < |pending| ==> all[i] == pending[i];
      }
      PopCovers(top, pending, p, cur, visited, x);
    }
  }

  /** Popping the node at path p: p becomes visited and its children's paths
      are queued. */
  lemma FrontierPop(top: Node, stack: seq<Node>, pending: seq<string>, visited: set<string>)
    requires Frontier(top, stack, pending, {}, visited) && |stack| > 0
    ensures var p, cur := pending[|pending| - 1], stack[|stack| - 1];
      && p in Paths(top) && p !in visited
      && Frontier(top, stack[..|stack| - 1], pending[..|pending| - 1], ChildPaths(p, cur.children.Keys), visited + {p})
  {
    var last := |stack| - 1;
    var p, cur := pending[last], stack[last];
    var stack', pending' := stack[..last], pending[..last];
    assert pending == pending' + [p] && stack == stack' + [cur];
    assert Walk(top, p) == Some(cur);
    PathsWalk(top, p);
    assert !Unreached(pending, {}, p) by {
      assert pending[last] <= p;
    }
    PopFree(pending', p, cur.children.Keys);
    PopQueued(top, p, cur);
    PopCovered(top, pending', p, cur, visited);
    PopStackAt(top, stack, pending);
  }

  lemma PopStackAt(top: Node, stack: seq<Node>, pending: seq<string>)
    requires StackAt(top, stack, pending) && |stack| > 0
    ensures StackAt(top, stack[..|stack| - 1], pending[..|pending| - 1])
  {
    var last := |stack| - 1;
    assert forall i :: 0 <= i < last ==> pending[..last][i] == pending[i] && stack[..last][i] == stack[i];
  }

  lemma PushFree(pending: seq<string>, more: set<string>, y: string)
    requires PrefixFree(pending, more) && y in more
    ensures PrefixFree(pending + [y], more - {y})
  {
    var all := pending + [y];
    forall i, j | 0 <= i < |all| && 0 <= j < |all| && i != j
      ensures !(all[i] <= all[j])
    {
      if i < |pending| { assert all[i] == pending[i]; }
      if j < |pending| { assert all[j] == pending[j]; }
    }
    forall i, z | 0 <= i < |all| && z in more - {y}
      ensures !(all[i] <= z) && !(z <= all[i])
    {
      if i < |pending| { assert all[i] == pending[i]; }
    }
  }

  lemma PushCovered(top: Node, pending: seq<string>, more: set<string>, visited: set<string>, y: string)
    requires Covered(top, pending, more, visited) && y in more
    ensures Covered(top, pending + [y], more - {y}, visited)
  {
    var all := pending + [y];
    forall x | x in Paths(top)
      ensures Unreached(all, more - {y}, x) <==> Unreached(pending, more, x)
    {
      assert all[|pending|] == y;
      assert forall i :: 0 <= i < |pending| ==> all[i] == pending[i];
      if Unreached(all, more - {y}, x) {
        assert !(all[|pending|] <= x);
        assert forall z :: z in more ==> z == y || z in more - {y};
      }
    }
  }

  /** Pushing the node at a queued path y onto the stack. */
  lemma FrontierPush(top: Node, stack: seq<Node>, pending: seq<string>, more: set<string>, visited: set<string>, y: string, node: Node)
    requires Frontier(top, stack, pending, more, visited) && y in more && Walk(top, y) == Some(node)
    ensures Frontier(top, stack + [node], pending + [y], more - {y}, visited)
  {
    PushFree(pending, more, y);
    PushCovered(top, pending, more, visited, y);
    assert StackAt(top, stack + [node], pending + [y]) by {
      assert forall i :: 0 <= i < |stack| ==> (pending + [y])[i] == pending[i] && (stack + [node])[i] == stack[i];
    }
  }

  /** With nothing left to push, every path has been visited. */
  lemma FrontierDone(top: Node, visited: set<string>)
    requires Frontier(top, [], [], {}, visited)
    ensures visited == Paths(top)
  {
  }

  // ---------------------------------------------------------------------
  // Reversed words and the suffix trie

  /** The reversal of a word. */
  function Reverse(s: string): (r: string)
    ensures |r| == |s|
    ensures forall i :: 0 <= i < |s| ==> r[i] == s[|s| - 1 - i]
  {
    if s == [] then [] else Reverse(s[1..]) + [s[0]]
  }

  lemma ReverseReverse(s: string)
    ensures Reverse(Reverse(s)) == s
  {
  }

  lemma ReverseAppend(a: string, b: string)
    ensures Reverse(a + b) == Reverse(b) + Reverse(a)
  {
  }

  /** w ends with p. */
  predicate IsSuffix(p: string, w: string)
  {
    |p| <= |w| && w[|w| - |p|..] == p
  }

  /** An injective map keeps the size of a set. */
  lemma {:induction false} InjectiveImage(A: set<string>, f: string -> string)
    requires forall a, b :: a in A && b in A && f(a) == f(b) ==> a == b
    ensures |set a | a in A :: f(a)| == |A|
    decreases |A|
  {
    if A != {} {
      var a :| a in A;
      var A' := A - {a};
      InjectiveImage(A', f);
      assert (set x | x in A :: f(x)) == (set x | x in A' :: f(x)) + {f(a)};
    } else {
      assert (set x | x in A :: f(x)) == {};
    }
  }

  /** The reversals of the words of ws. */
  ghost function Reversals(ws: set<string>): set<string>
  {
    set w | w in ws :: Reverse(w)
  }

  /** A string is a reversal of a word of ws exactly when its own reversal is in ws. */
  lemma ReversalsMirror(ws: set<string>, x: string)
    ensures x in Reversals(ws) <==> Reverse(x) in ws
  {
    ReverseReverse(x);
    if x in Reversals(ws) {
      var w :| w in ws && Reverse(w) == x;
      ReverseReverse(w);
    }
  }

  /** The words of ws that end with p. */
  ghost function EndingWith(ws: set<string>, p: string): set<string>
  {
    set w | w in ws && IsSuffix(p, w)
  }

  /** A word ending with p, reversed, starts with the reversal of p. */
  lemma ReverseSuffix(w: string, p: string)
    requires IsSuffix(p, w)
    ensures Reverse(w) == Reverse(p) + Reverse(w[..|w| - |p|])
  {
    assert w == w[..|w| - |p|] + p;
    ReverseAppend(w[..|w| - |p|], p);
  }

  lemma SuffixAbsent(n: Node, ws: set<string>, p: string)
    requires Words(n) == Reversals(ws)
    requires Walk(n, Reverse(p)).None?
    ensures EndingWith(ws, p) == {}
  {
    forall w | w in EndingWith(ws, p)
      ensures false
    {
      ReverseSuffix(w, p);
      assert Reverse(w) in Words(n);
      WordsWalk(n, Reverse(w));
      WalkStuck(n, Reverse(p), Reverse(w));
    }
  }

  lemma SuffixInto(n: Node, ws: set<string>, p: string, m: Node, r: string)
    requires Words(n) == Reversals(ws)
    requires Walk(n, Reverse(p)) == Some(m) && r in Words(m)
    ensures Reverse(r) + p in EndingWith(ws, p)
  {
    var rp := Reverse(p);
    WalkAppend(n, rp, r);
    WordsWalk(m, r);
    WordsWalk(n, rp + r);
    var w :| w in ws && Reverse(w) == rp + r;
    ReverseAppend(rp, r);
    ReverseReverse(w);
    ReverseReverse(p);
    assert w == Reverse(r) + p;
  }

  lemma SuffixSplit(w: string, p: string)
    requires IsSuffix(p, w)
    ensures Reverse(w) == Reverse(p) + Reverse(w[..|w| - |p|])
    ensures Reverse(Reverse(w[..|w| - |p|])) + p == w
  {
    var u := w[..|w| - |p|];
    ReverseSuffix(w, p);
    ReverseReverse(u);
    assert w == u + p;
  }

  lemma SuffixOnto(n: Node, ws: set<string>, p: string, m: Node, w: string)
    requires Words(n) == Reversals(ws)
    requires Walk(n, Reverse(p)) == Some(m) && w in EndingWith(ws, p)
    ensures Reverse(w[..|w| - |p|]) in Words(m) && Reverse(Reverse(w[..|w| - |p|])) + p == w
  {
    var ru := Reverse(w[..|w| - |p|]);
    SuffixSplit(w, p);
    assert Reverse(w) in Words(n) by {
      assert w in ws;
    }
    WordsWalk(n, Reverse(w));
    WalkAppend(n, Reverse(p), ru);
    WordsWalk(m, ru);
  }

  lemma SuffixInjective(p: string, a: string, b: string)
    requires Reverse(a) + p == Reverse(b) + p
    ensures a == b
  {
    assert Reverse(a) == (Reverse(a) + p)[..|a|] && Reverse(b) == (Reverse(b) + p)[..|b|];
    ReverseReverse(a);
    ReverseReverse(b);
  }

  /** A map that is injective on A and takes A onto B keeps the size. */
  lemma CardBijection(A: set<string>, B: set<string>, f: string -> string)
    requires forall a :: a in A ==> f(a) in B
    requires forall b :: b in B ==> b in set a | a in A :: f(a)
    requires forall a, b :: a in A && b in A && f(a) == f(b) ==> a == b
    ensures |A| == |B|
  {
    InjectiveImage(A, f);
    assert (set a | a in A :: f(a)) == B;
  }

  lemma SuffixBijection(n: Node, ws: set<string>, p: string, m: Node)
    requires Words(n) == Reversals(ws)
    requires Walk(n, Reverse(p)) == Some(m)
    ensures |Words(m)| == |EndingWith(ws, p)|
  {
    var f := (r: string) => Reverse(r) + p;
    var A, B := Words(m), EndingWith(ws, p);
    forall r | r in A
      ensures f(r) in B
    {
      SuffixInto(n, ws, p, m, r);
    }
    forall w | w in B
      ensures w in set a | a in A :: f(a)
    {
      SuffixOnto(n, ws, p, m, w);
    }
    forall a, b | a in A && b in A && f(a) == f(b)
      ensures a == b
    {
      SuffixInjective(p, a, b);
    }
    CardBijection(A, B, f);
  }

  /** When the suffix trie stores the reversals of ws, the node at the
      reversal of p stores one word per word of ws ending with p, and no
      node exists there when no word of ws ends with p (trie.py:115-117). */
  lemma SuffixCount(n: Node, ws: set<string>, p: string)
    requires Words(n) == Reversals(ws)
    ensures Walk(n, Reverse(p)).None? ==> EndingWith(ws, p) == {}
    ensures Walk(n, Reverse(p)).Some? ==> |Words(Walk(n, Reverse(p)).value)| == |EndingWith(ws, p)|
  {
    if Walk(n, Reverse(p)).None? {
      SuffixAbsent(n, ws, p);
    } else {
      SuffixBijection(n, ws, p, Walk(n, Reverse(p)).value);
    }
  }
}
