/** The classes Trie and Homework of task-2/src/trie.py: a forward trie, a
    trie of reversed words, and the number of insert calls, with the
    queries answered from them. */
module Tries {
  import opened Wrappers
  import opened TrieNodes

  /** The distinct words of a sequence of insert calls. */
  ghost function Stored(inserted: seq<string>): (r: set<string>)
    ensures forall w :: w in r <==> w in inserted
  {
    set w | w in inserted
  }

  lemma StoredAppend(inserted: seq<string>, w: string)
    ensures Stored(inserted + [w]) == Stored(inserted) + {w}
    ensures Reversals(Stored(inserted + [w])) == Reversals(Stored(inserted)) + {Reverse(w)}
  {
  }

  /** Over the stored words, some word with prefix p is some inserted word with prefix p. */
  lemma StoredPrefix(n: Node, inserted: seq<string>, p: string)
    requires Words(n) == Stored(inserted)
    ensures (exists w :: w in Words(n) && p <= w) <==> (exists w :: w in inserted && p <= w)
  {
    if exists w :: w in inserted && p <= w {
      var w :| w in inserted && p <= w;
      assert w in Words(n);
    }
  }

  lemma PushKey(top: Node, stack: seq<Node>, pending: seq<string>, visited: set<string>,
                p: string, cur: Node, keys: set<char>, k: char)
    requires Frontier(top, stack, pending, ChildPaths(p, keys), visited)
    requires Walk(top, p) == Some(cur) && k in keys && keys <= cur.children.Keys
    ensures Frontier(top, stack + [cur.children[k]], pending + [p + [k]], ChildPaths(p, keys - {k}), visited)
  {
    WalkStep(top, p, cur, k);
    FrontierPush(top, stack, pending, ChildPaths(p, keys), visited, p + [k], cur.children[k]);
    ChildPathsRemove(p, keys, k);
  }

  /** The children of cur under the keys ks, in that order. */
  function Kids(cur: Node, ks: seq<char>): (r: seq<Node>)
    requires forall k :: k in ks ==> k in cur.children
    ensures |r| == |ks| && forall i :: 0 <= i < |ks| ==> r[i] == cur.children[ks[i]]
  {
    seq(|ks|, i requires 0 <= i < |ks| => cur.children[ks[i]])
  }

  /** The paths of those children, below p. */
  ghost function Tags(p: string, ks: seq<char>): (r: seq<string>)
    ensures |r| == |ks| && forall i :: 0 <= i < |ks| ==> r[i] == p + [ks[i]]
  {
    seq(|ks|, i requires 0 <= i < |ks| => p + [ks[i]])
  }

  /** Pushing the children under the distinct keys ks, which are exactly the
      keys still to be queued, leaves nothing queued. */
  lemma {:induction false} PushAll(top: Node, stack: seq<Node>, pending: seq<string>, visited: set<string>,
                                   p: string, cur: Node, keys: set<char>, ks: seq<char>)
    requires Frontier(top, stack, pending, ChildPaths(p, keys), visited)
    requires Walk(top, p) == Some(cur) && keys <= cur.children.Keys
    requires forall k :: k in keys <==> k in ks
    requires forall i, j :: 0 <= i < j < |ks| ==> ks[i] != ks[j]
    ensures Frontier(top, stack + Kids(cur, ks), pending + Tags(p, ks), {}, visited)
    decreases |ks|
  {
    if ks == [] {
      assert keys == {};
      assert stack + Kids(cur, ks) == stack && pending + Tags(p, ks) == pending;
    } else {
      var k := ks[0];
      DistinctTail(ks);
      PushKey(top, stack, pending, visited, p, cur, keys, k);
      PushAll(top, stack + [cur.children[k]], pending + [p + [k]], visited, p, cur, keys - {k}, ks[1..]);
      KidsTagsCons(stack, pending, p, cur, ks);
    }
  }

  lemma DistinctTail(ks: seq<char>)
    requires |ks| > 0 && forall i, j :: 0 <= i < j < |ks| ==> ks[i] != ks[j]
    ensures ks[0] !in ks[1..] && forall i, j :: 0 <= i < j < |ks[1..]| ==> ks[1..][i] != ks[1..][j]
  {
    forall j | 0 <= j < |ks[1..]|
      ensures ks[1..][j] != ks[0]
    {
      assert ks[1..][j] == ks[j + 1];
    }
  }

  lemma KidsTagsCons(stack: seq<Node>, pending: seq<string>, p: string, cur: Node, ks: seq<char>)
    requires |ks| > 0 && forall k :: k in ks ==> k in cur.children
    ensures stack + [cur.children[ks[0]]] + Kids(cur, ks[1..]) == stack + Kids(cur, ks)
    ensures pending + [p + [ks[0]]] + Tags(p, ks[1..]) == pending + Tags(p, ks)
  {
  }

  /** The inner loop of the stack walks (trie.py:89-91 and 136-139): push
      every child of cur exactly once, in an unspecified key order ks. */
  method PushChildren(cur: Node, stack: seq<Node>) returns (stack': seq<Node>, ghost ks: seq<char>)
    ensures forall k :: k in cur.children <==> k in ks
    ensures forall i, j :: 0 <= i < j < |ks| ==> ks[i] != ks[j]
    ensures stack' == stack + Kids(cur, ks)
  {
    var keys := cur.children.Keys;
    stack', ks := stack, [];
    while keys != {}
      invariant keys <= cur.children.Keys
      invariant forall k :: k in cur.children <==> k in keys || k in ks
      invariant forall k :: k in ks ==> k !in keys
      invariant forall i, j :: 0 <= i < j < |ks| ==> ks[i] != ks[j]
      invariant stack' == stack + Kids(cur, ks)
      decreases keys
    {
      var k :| k in keys;
      assert Kids(cur, ks + [k]) == Kids(cur, ks) + [cur.children[k]];
      stack' := stack' + [cur.children[k]];
      ks := ks + [k];
      keys := keys - {k};
    }
  }

  /** One round of the stack walks: pop the node cur at path p and push its
      children under the distinct keys ks, which are all of its keys. */
  lemma WalkAdvance(top: Node, stack: seq<Node>, pending: seq<string>, visited: set<string>,
                    cur: Node, p: string, ks: seq<char>, stack': seq<Node>)
    requires Frontier(top, stack, pending, {}, visited) && |stack| > 0
    requires cur == stack[|stack| - 1] && p == pending[|pending| - 1]
    requires forall k :: k in cur.children <==> k in ks
    requires forall i, j :: 0 <= i < j < |ks| ==> ks[i] != ks[j]
    requires stack' == stack[..|stack| - 1] + Kids(cur, ks)
    ensures p in Paths(top) && p !in visited && Walk(top, p) == Some(cur)
    ensures Frontier(top, stack', pending[..|pending| - 1] + Tags(p, ks), {}, visited + {p})
  {
    FrontierPop(top, stack, pending, visited);
    assert Walk(top, p) == Some(cur);
    PushAll(top, stack[..|stack| - 1], pending[..|pending| - 1], visited + {p}, p, cur, cur.children.Keys, ks);
  }

  /** When the stack is empty every word below top has been visited. */
  lemma WalkDone(top: Node, pending: seq<string>, visited: set<string>)
    requires Frontier(top, [], pending, {}, visited)
    ensures visited * Words(top) == Words(top)
  {
    FrontierDone(top, visited);
    WordsArePaths(top);
  }

  /** Visiting the node at a fresh path p: p is a word exactly when the node
      is marked, and the walk's measure drops. */
  lemma VisitStep(top: Node, visited: set<string>, p: string, cur: Node)
    requires p in Paths(top) && p !in visited && Walk(top, p) == Some(cur)
    ensures |(visited + {p}) * Words(top)| == |visited * Words(top)| + if cur.end then 1 else 0
    ensures !cur.end ==> (visited + {p}) * Words(top) == visited * Words(top)
    ensures |Paths(top) - (visited + {p})| < |Paths(top) - visited|
  {
    WordsWalk(top, p);
    FreshVisit(Paths(top), Words(top), visited, p);
  }

  lemma FreshVisit(A: set<string>, W: set<string>, V: set<string>, p: string)
    requires p in A && p !in V
    ensures p in W ==> (V + {p}) * W == V * W + {p} && p !in V * W
    ensures p !in W ==> (V + {p}) * W == V * W
    ensures |A - (V + {p})| < |A - V|
  {
    assert A - V == (A - (V + {p})) + {p};
  }

  lemma EmptyWords()
    ensures Words(Empty) == {}
  {
  }

  /** Trie (trie.py:8-98) together with the two methods Homework adds
      (trie.py:101-140). */
  class Trie {
    /** The forward trie (_root). */
    var root: Node
    /** The trie of reversed words (_suffix_root). */
    var suffixRoot: Node
    /** The number of insert calls (_word_count). */
    var wordCount: nat
    /** Every word passed to insert, in call order. */
    ghost var inserted: seq<string>

    /** The forward trie stores the inserted words, the suffix trie their
        reversals, every node below either root stores a word, and the
        counter counts the insert calls. */
    ghost predicate Valid()
      reads this
    {
      && Words(root) == Stored(inserted)
      && Words(suffixRoot) == Reversals(Stored(inserted))
      && Pruned(root) && Pruned(suffixRoot)
      && wordCount == |inserted|
    }

    /** __init__ (trie.py:15-19): two empty roots and a zero counter. */
    constructor ()
      ensures Valid() && inserted == []
      ensures root == Empty && suffixRoot == Empty && wordCount == 0
    {
      root := Empty;
      suffixRoot := Empty;
      wordCount := 0;
      inserted := [];
      EmptyWords();
    }

    /** insert (trie.py:21-40): add word to the forward trie, its reversal
        to the suffix trie, and count the call. */
    method Insert(word: string)
      requires Valid()
      modifies this
      ensures Valid()
      ensures inserted == old(inserted) + [word] && wordCount == old(wordCount) + 1
      ensures root == InsertPath(old(root), word) && suffixRoot == InsertPath(old(suffixRoot), Reverse(word))
    {
      InsertWords(root, word);
      InsertPruned(root, word);
      InsertWords(suffixRoot, Reverse(word));
      InsertPruned(suffixRoot, Reverse(word));
      StoredAppend(inserted, word);
      root := InsertPath(root, word);
      suffixRoot := InsertPath(suffixRoot, Reverse(word));
      wordCount := wordCount + 1;
      inserted := inserted + [word];
    }

    /** put (trie.py:42-44): insert, with the value ignored. */
    method Put<V>(word: string, value: V)
      requires Valid()
      modifies this
      ensures Valid()
      ensures inserted == old(inserted) + [word] && wordCount == old(wordCount) + 1
      ensures root == InsertPath(old(root), word) && suffixRoot == InsertPath(old(suffixRoot), Reverse(word))
    {
      Insert(word);
    }

    /** contains (trie.py:46-55): word was inserted. */
    method Contains(word: string) returns (found: bool)
      requires Valid()
      ensures found <==> word in inserted
    {
      var node := root;
      for i := 0 to |word|
        invariant Walk(root, word[..i]) == Some(node)
      {
        var ch := word[i];
        WalkStep(root, word[..i], node, ch);
        assert word[..i + 1] == word[..i] + [ch];
        if ch !in node.children {
          WalkStuck(root, word[..i + 1], word);
          WordsWalk(root, word);
          return false;
        }
        node := node.children[ch];
      }
      assert word[..|word|] == word;
      WordsWalk(root, word);
      found := node.end;
    }

    /** _node_for_prefix (trie.py:57-66): the node at the end of prefix,
        walked from start or, when start is None, from the forward root. */
    method NodeForPrefix(prefix: string, start: Option<Node>) returns (node: Option<Node>)
      ensures node == Walk(if start.Some? then start.value else root, prefix)
    {
      var top := if start.Some? then start.value else root;
      var cur := top;
      for i := 0 to |prefix|
        invariant Walk(top, prefix[..i]) == Some(cur)
      {
        var ch := prefix[i];
        WalkStep(top, prefix[..i], cur, ch);
        assert prefix[..i + 1] == prefix[..i] + [ch];
        if ch !in cur.children {
          WalkStuck(top, prefix[..i + 1], prefix);
          return None;
        }
        cur := cur.children[ch];
      }
      assert prefix[..|prefix|] == prefix;
      node := Some(cur);
    }

    /** starts_with (trie.py:68-77): the path of prefix exists, which is the
        case for the empty prefix and for the prefixes of inserted words. */
    method StartsWith(prefix: string) returns (b: bool)
      requires Valid()
      ensures b <==> prefix == [] || exists w :: w in inserted && prefix <= w
    {
      var node := NodeForPrefix(prefix, None);
      PrunedPaths(root, prefix);
      StoredPrefix(root, inserted, prefix);
      b := node.Some?;
    }

    /** _count_words_in_subtree (trie.py:79-92): the number of words stored
        under node, by a stack walk; 0 for no node. */
    method CountWordsInSubtree(node: Option<Node>) returns (count: nat)
      ensures node.None? ==> count == 0
      ensures node.Some? ==> count == |Words(node.value)|
    {
      if node.None? {
        return 0;
      }
      var top := node.value;
      count := 0;
      var stack := [top];
      ghost var pending: seq<string> := [[]];
      ghost var visited: set<string> := {};
      FrontierStart(top);
      while stack != []
        invariant Frontier(top, stack, pending, {}, visited)
        invariant count == |visited * Words(top)|
        decreases |Paths(top) - visited|
      {
        var cur := stack[|stack| - 1];
        ghost var p, stack0 := pending[|pending| - 1], stack;
        stack := stack[..|stack| - 1];
        count := count + if cur.end then 1 else 0;
        ghost var ks;
        stack, ks := PushChildren(cur, stack);
        WalkAdvance(top, stack0, pending, visited, cur, p, ks, stack);
        VisitStep(top, visited, p, cur);
        pending := pending[..|pending| - 1] + Tags(p, ks);
        visited := visited + {p};
      }
      WalkDone(top, pending, visited);
    }

    /** count_words_with_suffix (trie.py:104-117): for the empty pattern the
        number of insert calls, repeats included; otherwise the number of
        distinct inserted words that end with pattern, counted under the
        node of the reversed pattern in the suffix trie. */
    method CountWordsWithSuffix(pattern: string) returns (count: nat)
      requires Valid()
      ensures pattern == [] ==> count == |inserted|
      ensures pattern != [] ==> count == |EndingWith(Stored(inserted), pattern)|
    {
      if pattern == [] {
        return wordCount;
      }
      var revPattern := Reverse(pattern);
      var node := NodeForPrefix(revPattern, Some(suffixRoot));
      count := CountWordsInSubtree(node);
      SuffixCount(suffixRoot, Stored(inserted), pattern);
    }

    /** has_prefix (trie.py:119-140): some inserted word starts with prefix.
        Below the prefix's node a stack walk stops at the first marked node. */
    method HasPrefix(prefix: string) returns (b: bool)
      requires Valid()
      ensures b <==> exists w :: w in inserted && prefix <= w
    {
      var node := NodeForPrefix(prefix, None);
      PrefixWords(root, prefix);
      StoredPrefix(root, inserted, prefix);
      if node.None? {
        return false;
      }
      var top := node.value;
      var stack := [top];
      ghost var pending: seq<string> := [[]];
      ghost var visited: set<string> := {};
      FrontierStart(top);
      while stack != []
        invariant Frontier(top, stack, pending, {}, visited)
        invariant visited * Words(top) == {}
        decreases |Paths(top) - visited|
      {
        var cur := stack[|stack| - 1];
        ghost var p, stack0 := pending[|pending| - 1], stack;
        stack := stack[..|stack| - 1];
        if cur.end {
          assert Walk(top, p) == Some(cur);
          WordsWalk(top, p);
          return true;
        }
        ghost var ks;
        stack, ks := PushChildren(cur, stack);
        WalkAdvance(top, stack0, pending, visited, cur, p, ks, stack);
        VisitStep(top, visited, p, cur);
        pending := pending[..|pending| - 1] + Tags(p, ks);
        visited := visited + {p};
      }
      WalkDone(top, pending, visited);
      return false;
    }
  }

  /** The words inserted by the fixture of task-2/tests/test_trie.py:6-10. */
  function SampleWords(): seq<string>
  {
    ["apple", "app", "application", "apt", "cat", "cater", "dog"]
  }

  lemma SampleSuffixes()
    ensures EndingWith(Stored(SampleWords()), "le") == {"apple"}
    ensures EndingWith(Stored(SampleWords()), "pp") == {"app"}
  {
    var ws := Stored(SampleWords());
    forall w | w in ws
      ensures IsSuffix("le", w) <==> w == "apple"
      ensures IsSuffix("pp", w) <==> w == "app"
    {
      assert w in SampleWords();
    }
  }

  lemma SampleMembers()
    ensures "app" in SampleWords() && "ap" !in SampleWords()
    ensures "ap" <= SampleWords()[0] && "app" <= SampleWords()[0]
    ensures !exists w :: w in SampleWords() && "z" <= w
  {
    forall w | w in SampleWords()
      ensures !("z" <= w)
    {
      assert w[0] != 'z';
    }
  }

  /** Inserting a list of words in order, as the fixture's loop does. */
  method InsertAll(t: Trie, words: seq<string>)
    requires t.Valid()
    modifies t
    ensures t.Valid() && t.inserted == old(t.inserted) + words
  {
    for i := 0 to |words|
      invariant t.Valid() && t.inserted == old(t.inserted) + words[..i]
    {
      t.Insert(words[i]);
      assert words[..i + 1] == words[..i] + [words[i]];
    }
    assert words[..|words|] == words;
  }

  /** A trie holding the fixture's words, inserted in its order. */
  method SampleTrie() returns (t: Trie)
    ensures fresh(t) && t.Valid() && t.inserted == SampleWords()
  {
    t := new Trie();
    InsertAll(t, SampleWords());
  }

  /** The only stored word of [w, w] that ends with w is w. */
  lemma TwiceStored(w: string)
    ensures EndingWith(Stored([w, w]), w) == {w}
  {
    assert IsSuffix(w, w);
  }

  /** The empty pattern counts insert calls while a non-empty one counts
      distinct words: in a trie into which w was inserted twice, the empty
      pattern counts 2 and w itself as a suffix counts 1 (trie.py:40, 113-117). */
  method RepeatedInsertCounts(w: string) returns (all: nat, own: nat)
    requires w != []
    ensures all == 2 && own == 1
  {
    var t := new Trie();
    InsertAll(t, [w, w]);
    assert t.inserted == [w, w];
    TwiceStored(w);
    all := t.CountWordsWithSuffix([]);
    own := t.CountWordsWithSuffix(w);
  }

  /** The suffix counts of task-2/tests/test_trie.py:13-17 on the fixture. */
  method SampleCounts(t: Trie) returns (le: nat, pp: nat, all: nat)
    requires t.Valid() && t.inserted == SampleWords()
    ensures le == 1 && pp == 1 && all == 7
  {
    SampleSuffixes();
    le := t.CountWordsWithSuffix("le");
    pp := t.CountWordsWithSuffix("pp");
    all := t.CountWordsWithSuffix("");
  }

  /** The lookups of task-2/tests/test_trie.py:21-26 and 38-44 on the fixture. */
  method SampleLookups(t: Trie) returns (app: bool, ap: bool, startsAp: bool, hasApp: bool, hasZ: bool)
    requires t.Valid() && t.inserted == SampleWords()
    ensures app && !ap && startsAp
    ensures hasApp && !hasZ
  {
    SampleMembers();
    app := t.Contains("app");
    ap := t.Contains("ap");
    startsAp := t.StartsWith("ap");
    hasApp := t.HasPrefix("app");
    hasZ := t.HasPrefix("z");
  }
}
