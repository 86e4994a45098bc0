/**
 * What `dfs` and `query` of NegativeDB/trie.py report: exactly the words
 * stored less than `MaxDepth` levels below the start node, each with its
 * counter, sorted by counter from high to low.
 */
module TrieQuery {
  import opened Wrappers
  import opened TrieStore

  /** Every entry `dfs` reports is a word stored below the start node, fewer
      than `MaxDepth - depth` characters deeper, paired with its counter. */
  lemma {:induction false} CollectedSound(n: Node, prefix: string, depth: nat, e: (string, int))
    requires WellFormed(n) && depth <= MaxDepth && e in Collected(n, prefix, depth)
    ensures prefix + n.ch <= e.0 && |e.0| < |prefix + n.ch| + MaxDepth - depth
    ensures Stored(n, e.0[|prefix + n.ch|..]) && Count(n, e.0[|prefix + n.ch|..]) == e.1
    decreases MaxDepth - depth, 0, 1
  {
    assert depth < MaxDepth;
    var pre := prefix + n.ch;
    var own := if n.isEnd then [(pre, n.counter)] else [];
    assert Collected(n, prefix, depth) == own + CollectedChildren(n.children, n.order, pre, depth + 1);
    if e in own {
      assert e == (pre, n.counter) && e.0 == pre;
      assert e.0[|pre|..] == [] && Walk(n, []) == Some(n);
    } else {
      ChildEntrySound(n, prefix, depth, e);
    }
  }

  /** `CollectedSound` for an entry that one of the children reported. */
  lemma {:induction false} ChildEntrySound(n: Node, prefix: string, depth: nat, e: (string, int))
    requires WellFormed(n) && depth < MaxDepth
    requires e in CollectedChildren(n.children, n.order, prefix + n.ch, depth + 1)
    ensures prefix + n.ch <= e.0 && |e.0| < |prefix + n.ch| + MaxDepth - depth
    ensures Stored(n, e.0[|prefix + n.ch|..]) && Count(n, e.0[|prefix + n.ch|..]) == e.1
    decreases MaxDepth - depth, 0, 0
  {
    CollectedChildrenSound(n, n.order, prefix + n.ch, depth + 1, e);
  }

  lemma {:induction false} CollectedChildrenSound(n: Node, keys: seq<char>, pre: string, depth: nat, e: (string, int))
    requires WellFormed(n) && 0 < depth <= MaxDepth
    requires e in CollectedChildren(n.children, keys, pre, depth)
    ensures pre <= e.0 && |pre| < |e.0| < |pre| + MaxDepth - depth + 1
    ensures Stored(n, e.0[|pre|..]) && Count(n, e.0[|pre|..]) == e.1
    decreases MaxDepth - depth, 1, |keys|
  {
    var last := keys[|keys| - 1];
    var rest := CollectedChildren(n.children, keys[..|keys| - 1], pre, depth);
    if e in rest {
      CollectedChildrenSound(n, keys[..|keys| - 1], pre, depth, e);
    } else {
      assert last in n.children;
      var child := n.children[last];
      assert e in Collected(child, pre, depth);
      CollectedSound(child, pre, depth, e);
      assert child.ch == [last];
      var u, tail := e.0[|pre|..], e.0[|pre| + 1..];
      assert u != [] && u[0] == last && u[1..] == tail;
      assert Walk(n, u) == Walk(child, tail);
    }
  }

  /** Every word stored fewer than `MaxDepth - depth` characters below the
      start node is reported, with its counter. */
  lemma {:induction false} CollectedComplete(n: Node, prefix: string, depth: nat, u: string)
    requires WellFormed(n) && depth <= MaxDepth
    requires Stored(n, u) && |u| < MaxDepth - depth
    ensures (prefix + n.ch + u, Count(n, u)) in Collected(n, prefix, depth)
    decreases |u|, 1
  {
    var pre := prefix + n.ch;
    var own := if n.isEnd then [(pre, n.counter)] else [];
    assert Collected(n, prefix, depth) == own + CollectedChildren(n.children, n.order, pre, depth + 1);
    if u == [] {
      assert pre + u == pre && Walk(n, u) == Some(n);
      assert (pre + u, Count(n, u)) in own;
    } else {
      ChildEntryComplete(n, pre, depth, u);
    }
  }

  /** `CollectedComplete` for a word below one of the children. */
  lemma {:induction false} ChildEntryComplete(n: Node, pre: string, depth: nat, u: string)
    requires WellFormed(n) && depth < MaxDepth
    requires Stored(n, u) && 0 < |u| < MaxDepth - depth
    ensures (pre + u, Count(n, u)) in CollectedChildren(n.children, n.order, pre, depth + 1)
    decreases |u|, 0
  {
    var c := u[0];
    var child := n.children[c];
    assert Walk(n, u) == Walk(child, u[1..]);
    assert WellFormed(child) && child.ch == [c] && c in n.order;
    CollectedComplete(child, pre, depth + 1, u[1..]);
    SplitFirst(pre, u);
    CollectedChildrenContain(n.children, n.order, pre, depth + 1, c, (pre + u, Count(n, u)));
  }

  lemma SplitFirst(pre: string, u: string)
    requires u != []
    ensures pre + [u[0]] + u[1..] == pre + u
  {
    assert [u[0]] + u[1..] == u;
  }

  /** The loop over the children reports what each child reports. */
  lemma {:induction false} CollectedChildrenContain(children: map<char, Node>, keys: seq<char>, pre: string,
                                                    depth: nat, c: char, e: (string, int))
    requires depth <= MaxDepth && c in keys && c in children
    requires e in Collected(children[c], pre, depth)
    ensures e in CollectedChildren(children, keys, pre, depth)
  {
    if keys[|keys| - 1] != c {
      assert c in keys[..|keys| - 1] by {
        var i :| 0 <= i < |keys| && keys[i] == c;
        assert keys[..|keys| - 1][i] == c;
      }
      CollectedChildrenContain(children, keys[..|keys| - 1], pre, depth, c, e);
    }
  }

  /** The start node of `query(x)` stands for `x` once `x[:-1]` is put in front of it. */
  lemma QueryStart(root: Node, x: string)
    requires WellFormed(root) && root.ch == [] && Walk(root, x).Some?
    ensures DropLast(x) + Walk(root, x).value.ch == x
    ensures WellFormed(Walk(root, x).value)
  {
    WalkWellFormed(root, x);
    if x != [] {
      WalkLabel(root, x);
      assert x[..|x| - 1] + [x[|x| - 1]] == x;
    }
  }

  /** Sorting by counter keeps exactly the entries it was given. */
  lemma SortedSameMembers(s: seq<(string, int)>, e: (string, int))
    ensures e in SortedByCount(s) <==> e in s
  {
    var r := SortedByCount(s);
    assert e in r <==> e in multiset(r);
    assert e in s <==> e in multiset(s);
  }

  /** Every pair `query(x)` lists is a stored word that starts with `x`, is
      fewer than `MaxDepth` characters longer than `x`, paired with its counter
      (trie.py:150-172). */
  lemma QueriedSound(root: Node, x: string, e: (string, int))
    requires WellFormed(root) && root.ch == [] && e in Queried(root, x)
    ensures x <= e.0 && |e.0| < |x| + MaxDepth && Stored(root, e.0) && Count(root, e.0) == e.1
  {
    var m := Walk(root, x).value;
    QueryStart(root, x);
    var found := Collected(m, DropLast(x), 0);
    assert Queried(root, x) == SortedByCount(found);
    SortedSameMembers(found, e);
    CollectedSound(m, DropLast(x), 0, e);
    WalkBelow(root, x, e.0);
  }

  /** The walk to a word that starts with `x` passes through the node for `x`. */
  lemma WalkBelow(root: Node, x: string, s: string)
    requires Walk(root, x).Some? && x <= s
    ensures Walk(root, s) == Walk(Walk(root, x).value, s[|x|..])
  {
    WalkAppend(root, x, s[|x|..]);
    assert x + s[|x|..] == s;
  }

  /** Every stored word that starts with `x` and is fewer than `MaxDepth`
      characters longer than `x` is listed by `query(x)` with its counter. */
  lemma QueriedComplete(root: Node, x: string, s: string)
    requires WellFormed(root) && root.ch == []
    requires x <= s && |s| < |x| + MaxDepth && Stored(root, s)
    ensures (s, Count(root, s)) in Queried(root, x)
  {
    var u := s[|x|..];
    WalkAppend(root, x, u);
    assert x + u == s;
    var m := Walk(root, x).value;
    QueryStart(root, x);
    CollectedComplete(m, DropLast(x), 0, u);
    var found := Collected(m, DropLast(x), 0);
    assert (s, Count(root, s)) in found;
    assert Queried(root, x) == SortedByCount(found);
    SortedSameMembers(found, (s, Count(root, s)));
  }

  /** After a successful `remove(w)`, `query(w)` is empty (trie.py:91-105, trie.py:161-166). */
  lemma RemovedThenQueriedEmpty(root: Node, w: string)
    requires w != [] && Removed(root, w).0
    ensures Queried(Removed(root, w).1, w) == []
  {
    RemovedWalk(root, w, w);
  }

  /** A fresh trie answers every query with the empty list. */
  lemma QueriedFresh(x: string)
    ensures Queried(NewNode([]), x) == []
  {
    if x == [] {
      assert Collected(NewNode([]), [], 0) == [];
    }
  }
}
