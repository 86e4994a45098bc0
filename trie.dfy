/**
 * The prefix tree of NegativeDB/trie.py.
 *
 * Every node has exactly one parent and no node reference leaves the tree, so
 * a node is modelled as a value: `Node` below. The class `Trie` holds the root
 * and the `output` list that `dfs` appends to. Its methods walk a node variable
 * down the tree as the source does. Because nodes are values, they then hang
 * the updated nodes back into their parents on the way up.
 */
module TrieStore {
  import opened Wrappers

  /** trie.py:4 */
  const MaxDepth: nat := 20

  /**
   * A TrieNode (trie.py:5-22): the character it stands for ("" at the root),
   * the end-of-word flag, the insertion counter and the children. `order`
   * lists the keys of `children` in the order a Python dict iterates them,
   * which is the order they were added in.
   */
  datatype Node = Node(ch: string, isEnd: bool, counter: int, children: map<char, Node>, order: seq<char>)

  /** `TrieNode(char)` */
  function NewNode(ch: string): Node {
    Node(ch, false, 0, map[], [])
  }

  predicate Distinct(s: seq<char>) {
    forall i, j :: 0 <= i < j < |s| ==> s[i] != s[j]
  }

  /** The shape every node of a trie keeps: `order` lists each key once, and a
      child stored under key `c` stands for the character `c`. */
  predicate WellFormed(n: Node) {
    && (forall c :: c in n.children <==> c in n.order)
    && Distinct(n.order)
    && (forall c :: c in n.children ==> n.children[c].ch == [c] && WellFormed(n.children[c]))
  }

  /** The node reached by following `w` from `n`, if every step exists. */
  function Walk(n: Node, w: string): Option<Node> {
    if w == [] then Some(n)
    else if w[0] in n.children then Walk(n.children[w[0]], w[1..])
    else None
  }

  /** Whether `w` is stored below `n`: its node exists and is marked as an end. */
  predicate Stored(n: Node, w: string) {
    Walk(n, w).Some? && Walk(n, w).value.isEnd
  }

  /** The counter of the node for `w`, or 0 when there is no such node. */
  function Count(n: Node, w: string): int {
    if Walk(n, w).Some? then Walk(n, w).value.counter else 0
  }

  lemma {:induction false} WalkAppend(n: Node, u: string, v: string)
    ensures Walk(n, u + v) == if Walk(n, u).None? then None else Walk(Walk(n, u).value, v)
  {
    if u != [] {
      assert (u + v)[0] == u[0] && (u + v)[1..] == u[1..] + v;
      if u[0] in n.children {
        WalkAppend(n.children[u[0]], u[1..], v);
      }
    } else {
      assert u + v == v;
    }
  }

  /** Under a well-formed node the node for a nonempty `w` stands for `w`'s last character. */
  lemma {:induction false} WalkLabel(n: Node, w: string)
    requires WellFormed(n) && w != [] && Walk(n, w).Some?
    ensures Walk(n, w).value.ch == [w[|w| - 1]] && WellFormed(Walk(n, w).value)
  {
    if |w| > 1 {
      WalkLabel(n.children[w[0]], w[1..]);
    }
  }

  lemma {:induction false} WalkWellFormed(n: Node, w: string)
    requires WellFormed(n) && Walk(n, w).Some?
    ensures WellFormed(Walk(n, w).value)
  {
    if w != [] {
      WalkWellFormed(n.children[w[0]], w[1..]);
    }
  }

  // ---------------------------------------------------------------- insert

  /** `__insert` (trie.py:33-43), the node it moves to: the existing child, or a new one. */
  function ChildOrNew(n: Node, c: char): Node {
    if c in n.children then n.children[c] else NewNode([c])
  }

  /** `__insert`, the change to the parent: `child` is stored under `c`; a new
      key goes to the end of the iteration order. */
  function Attach(n: Node, c: char, child: Node): Node {
    n.(children := n.children[c := child],
       order := if c in n.children then n.order else n.order + [c])
  }

  /** The node `n` after `insert(w)` (trie.py:64-77). */
  function Inserted(n: Node, w: string): Node
    decreases |w|
  {
    if w == [] then n.(isEnd := true, counter := n.counter + 1)
    else Attach(n, w[0], Inserted(ChildOrNew(n, w[0]), w[1..]))
  }

  lemma {:induction false} InsertedWellFormed(n: Node, w: string)
    requires WellFormed(n)
    ensures WellFormed(Inserted(n, w)) && Inserted(n, w).ch == n.ch
    decreases |w|
  {
    if w != [] {
      var c := ChildOrNew(n, w[0]);
      InsertedWellFormed(c, w[1..]);
      AttachWellFormed(n, w[0], Inserted(c, w[1..]));
    }
  }

  /** Storing a well-formed child for `c` under `c` keeps a node well-formed. */
  lemma AttachWellFormed(n: Node, c: char, child: Node)
    requires WellFormed(n) && WellFormed(child) && child.ch == [c]
    ensures WellFormed(Attach(n, c, child)) && Attach(n, c, child).ch == n.ch
  {
    var r := Attach(n, c, child);
    assert r.children.Keys == n.children.Keys + {c};
    if c !in n.children {
      assert Distinct(n.order + [c]);
    }
  }

  /**
   * What `insert(w)` does to every path `v`: the nodes along `w` exist
   * afterwards, the node for `w` is marked as an end and counted once more,
   * every other node keeps its flag and counter, and below a path that is not
   * a prefix of `w` nothing changes at all.
   */
  lemma {:induction false} InsertedWalk(n: Node, w: string, v: string)
    ensures Walk(Inserted(n, w), v).Some? <==> Walk(n, v).Some? || v <= w
    ensures Stored(Inserted(n, w), v) == (v == w || Stored(n, v))
    ensures Count(Inserted(n, w), v) == if v == w then Count(n, v) + 1 else Count(n, v)
    ensures !(v <= w) ==> Walk(Inserted(n, w), v) == Walk(n, v)
    decreases |w|
  {
    var r := Inserted(n, w);
    if w == [] {
      if v != [] {
        assert Walk(r, v) == Walk(n, v);
      }
    } else if v != [] {
      var c := ChildOrNew(n, w[0]);
      if v[0] == w[0] {
        InsertedWalk(c, w[1..], v[1..]);
        assert v <= w <==> v[1..] <= w[1..];
        if w[0] !in n.children {
          assert Walk(n, v).None?;
          if v[1..] != [] {
            assert Walk(c, v[1..]).None?;
          }
        }
      } else {
        assert Walk(r, v) == Walk(n, v);
      }
    }
  }

  /** After `insert(w)` the word is found (trie.py:64-89). */
  lemma InsertThenFound(n: Node, w: string)
    ensures Found(Inserted(n, w), w)
  {
    InsertedWalk(n, w, w);
    FoundAtNode(Inserted(n, w), w);
  }

  /** `insert(w)` applied `k` times. */
  function InsertedTimes(n: Node, w: string, k: nat): Node {
    if k == 0 then n else Inserted(InsertedTimes(n, w, k - 1), w)
  }

  /** Inserting the same word `k` times creates the path once and leaves its
      end node marked, with the counter raised by `k`: from a fresh trie the
      counter is `k`. */
  lemma {:induction false} InsertedRepeatedly(n: Node, w: string, k: nat, v: string)
    requires k > 0
    ensures Walk(InsertedTimes(n, w, k), v).Some? <==> Walk(n, v).Some? || v <= w
    ensures Stored(InsertedTimes(n, w, k), w)
    ensures Count(InsertedTimes(n, w, k), w) == Count(n, w) + k
  {
    InsertedWalk(InsertedTimes(n, w, k - 1), w, v);
    InsertedWalk(InsertedTimes(n, w, k - 1), w, w);
    if k > 1 {
      InsertedRepeatedly(n, w, k - 1, v);
      InsertedRepeatedly(n, w, k - 1, w);
    }
  }

  // ------------------------------------------------------------------ find

  /** `find(w)` (trie.py:79-89): follow `w` while the children exist, then
      report the end flag of the node reached. */
  function Found(n: Node, w: string): bool {
    if w == [] || w[0] !in n.children then n.isEnd
    else Found(n.children[w[0]], w[1..])
  }

  /** How many characters of `w` can be followed from `n`. */
  function Reached(n: Node, w: string): (k: nat)
    ensures k <= |w| && Walk(n, w[..k]).Some?
    ensures k < |w| ==> Walk(n, w[..k + 1]).None?
  {
    if w == [] || w[0] !in n.children then
      assert w[..0] == [];
      0
    else
      var k := Reached(n.children[w[0]], w[1..]);
      assert w[..k + 1][1..] == w[1..][..k];
      assert k + 1 < |w| ==> w[..k + 2][1..] == w[1..][..k + 1];
      k + 1
  }

  /** `find` answers with the flag of the deepest node on the path of `w`,
      even when `w` goes on past it. */
  lemma {:induction false} FoundIsDeepestFlag(n: Node, w: string)
    ensures Found(n, w) == Walk(n, w[..Reached(n, w)]).value.isEnd
  {
    if w != [] && w[0] in n.children {
      FoundIsDeepestFlag(n.children[w[0]], w[1..]);
      var k := Reached(n.children[w[0]], w[1..]);
      assert w[..k + 1][1..] == w[1..][..k];
    }
  }

  /** When the whole path exists, `find` reports the flag of its last node. */
  lemma FoundAtNode(n: Node, w: string)
    requires Walk(n, w).Some?
    ensures Found(n, w) == Walk(n, w).value.isEnd
  {
    FoundIsDeepestFlag(n, w);
    assert w[..|w|] == w;
  }

  /** On a fresh trie `find` answers with the root's flag: false (trie.py:26-31). */
  lemma FoundFresh(w: string)
    ensures !Found(NewNode([]), w)
  {
  }

  // ---------------------------------------------------------------- remove

  /** `s` without the character `c`. */
  function Without(s: seq<char>, c: char): (r: seq<char>)
    ensures forall x :: x in r <==> x in s && x != c
    ensures Distinct(s) ==> Distinct(r)
  {
    if s == [] then []
    else if s[0] == c then Without(s[1..], c)
    else
      var t := Without(s[1..], c);
      assert Distinct(s) ==> Distinct(s[1..]) && s[0] !in s[1..];
      [s[0]] + t
  }

  /** `del n.children[c]`: the key leaves the dict and its iteration order. */
  function Detach(n: Node, c: char): Node {
    n.(children := n.children - {c}, order := Without(n.order, c))
  }

  /**
   * `remove(w)` (trie.py:91-105): whether it succeeded and the node `n`
   * afterwards. It follows `w[:-1]`; if the last character is a child there,
   * that node's own counter goes down by one and the child is cut off with
   * everything below it.
   */
  function Removed(n: Node, w: string): (bool, Node)
    requires w != []
  {
    if |w| == 1 then
      if w[0] in n.children then (true, Detach(n.(counter := n.counter - 1), w[0])) else (false, n)
    else if w[0] !in n.children then (false, n)
    else
      var (ok, child) := Removed(n.children[w[0]], w[1..]);
      if ok then (true, n.(children := n.children[w[0] := child])) else (false, n)
  }

  lemma {:induction false} RemovedWellFormed(n: Node, w: string)
    requires WellFormed(n) && w != []
    ensures WellFormed(Removed(n, w).1) && Removed(n, w).1.ch == n.ch
  {
    if |w| > 1 && w[0] in n.children {
      RemovedWellFormed(n.children[w[0]], w[1..]);
    }
  }

  /** `remove(w)` succeeds exactly when the node for `w` exists, and changes
      nothing when it fails. */
  lemma {:induction false} RemovedIff(n: Node, w: string)
    requires w != []
    ensures Removed(n, w).0 <==> Walk(n, w).Some?
    ensures !Removed(n, w).0 ==> Removed(n, w).1 == n
  {
    if |w| > 1 && w[0] in n.children {
      RemovedIff(n.children[w[0]], w[1..]);
    }
  }

  /**
   * What a successful `remove(w)` does to every path `v`: everything at or
   * below `w` is gone; the node for `w[:-1]` has its counter lowered by one and
   * loses the child; the other nodes on the way keep their flags and counters;
   * paths that neither lead to nor go through `w` are untouched.
   */
  lemma {:induction false} RemovedWalk(n: Node, w: string, v: string)
    requires w != [] && Removed(n, w).0
    ensures Walk(Removed(n, w).1, v).Some? <==> Walk(n, v).Some? && !(w <= v)
    ensures !(w <= v) && !(v <= w) ==> Walk(Removed(n, w).1, v) == Walk(n, v)
    ensures v == w[..|w| - 1] ==>
      (Walk(n, v).Some? && Walk(Removed(n, w).1, v) ==
       Some(Detach(Walk(n, v).value.(counter := Walk(n, v).value.counter - 1), w[|w| - 1])))
    ensures v < w[..|w| - 1] ==>
      (Stored(Removed(n, w).1, v) == Stored(n, v) && Count(Removed(n, w).1, v) == Count(n, v))
  {
    var r := Removed(n, w).1;
    if |w| == 1 {
      if v != [] {
        assert w <= v <==> v[0] == w[0];
        assert v[0] != w[0] ==> Walk(r, v) == Walk(n, v);
      }
    } else if v != [] {
      var child := n.children[w[0]];
      if v[0] == w[0] {
        RemovedWalk(child, w[1..], v[1..]);
        assert w <= v <==> w[1..] <= v[1..];
        assert v <= w <==> v[1..] <= w[1..];
        assert w[1..][..|w| - 2] == w[..|w| - 1][1..];
        assert v == w[..|w| - 1] ==> v[1..] == w[1..][..|w[1..]| - 1];
        assert v < w[..|w| - 1] ==> v[1..] < w[1..][..|w[1..]| - 1];
      } else {
        assert Walk(r, v) == Walk(n, v);
        assert !(w <= v);
      }
    }
  }

  /** After a successful `remove(w)`, `find(w)` falls back to the flag of the node for `w[:-1]`. */
  lemma RemovedThenFound(n: Node, w: string)
    requires w != [] && Removed(n, w).0
    ensures Walk(n, w[..|w| - 1]).Some?
    ensures Found(Removed(n, w).1, w) == Walk(n, w[..|w| - 1]).value.isEnd
  {
    var r := Removed(n, w).1;
    var p := w[..|w| - 1];
    RemovedWalk(n, w, p);
    RemovedIff(n, w);
    WalkAppend(n, p, [w[|w| - 1]]);
    assert p + [w[|w| - 1]] == w;
    WalkAppend(r, p, [w[|w| - 1]]);
    RemovedWalk(n, w, w);
    FoundIsDeepestFlag(r, w);
    var k := Reached(r, w);
    assert w[..|w|] == w;
    var j := if k < |p| then k + 1 else |p|;
    WalkAppend(r, p[..j], p[j..]);
    assert p[..j] + p[j..] == p && w[..j] == p[..j];
    assert k == |p| && w[..k] == p;
  }

  // -------------------------------------------------------- dfs and query

  /** What `dfs(n, prefix, depth)` appends to `output` (trie.py:134-148). */
  function Collected(n: Node, prefix: string, depth: nat): seq<(string, int)>
    requires depth <= MaxDepth
    decreases MaxDepth - depth, 0, 0
  {
    if depth == MaxDepth then []
    else
      (if n.isEnd then [(prefix + n.ch, n.counter)] else [])
      + CollectedChildren(n.children, n.order, prefix + n.ch, depth + 1)
  }

  /** What the loop over the children of a node appends, for the keys in `keys`. */
  function CollectedChildren(children: map<char, Node>, keys: seq<char>, prefix: string, depth: nat): seq<(string, int)>
    requires depth <= MaxDepth
    decreases MaxDepth - depth, 1, |keys|
  {
    if keys == [] then []
    else
      var last := keys[|keys| - 1];
      CollectedChildren(children, keys[..|keys| - 1], prefix, depth)
      + (if last in children then Collected(children[last], prefix, depth) else [])
  }

  /** Python's `sorted(s, key=count, reverse=True)`, which is stable. */
  function SortedByCount(s: seq<(string, int)>): (r: seq<(string, int)>)
    ensures multiset(r) == multiset(s)
    ensures forall i, j :: 0 <= i < j < |r| ==> r[i].1 >= r[j].1
  {
    if s == [] then []
    else
      assert s == [s[0]] + s[1..];
      InsertByCountPermutes(s[0], SortedByCount(s[1..]));
      InsertByCount(s[0], SortedByCount(s[1..]))
  }

  /** Puts `e` in front of the first entry that does not count more than it. */
  function InsertByCount(e: (string, int), s: seq<(string, int)>): (r: seq<(string, int)>)
    requires forall i, j :: 0 <= i < j < |s| ==> s[i].1 >= s[j].1
    ensures forall i, j :: 0 <= i < j < |r| ==> r[i].1 >= r[j].1
    ensures r != [] && (r[0] == e || (s != [] && r[0] == s[0]))
  {
    if s == [] || s[0].1 <= e.1 then
      ConsByCount(e, s);
      [e] + s
    else
      var t := InsertByCount(e, s[1..]);
      assert s[0].1 >= t[0].1 by {
        if t[0] != e {
          assert t[0] == s[1..][0] == s[1];
        }
      }
      ConsByCount(s[0], t);
      [s[0]] + t
  }

  /** Inserting by count keeps every entry and adds `e` once. */
  lemma {:induction false} InsertByCountPermutes(e: (string, int), s: seq<(string, int)>)
    requires forall i, j :: 0 <= i < j < |s| ==> s[i].1 >= s[j].1
    ensures multiset(InsertByCount(e, s)) == multiset(s) + multiset{e}
  {
    if s != [] && s[0].1 > e.1 {
      InsertByCountPermutes(e, s[1..]);
      assert s == [s[0]] + s[1..];
    }
  }

  /** `r` is `s` with `e` put in at index `k`, right before the first entry
      whose counter is not higher than `e`'s. */
  predicate PlacedAt(e: (string, int), s: seq<(string, int)>, k: nat, r: seq<(string, int)>) {
    && k <= |s| && r == s[..k] + [e] + s[k..]
    && (forall i :: 0 <= i < k ==> s[i].1 > e.1)
    && (k < |s| ==> s[k].1 <= e.1)
  }

  /** Where the entry lands: in front of the entries that tie with it.
      `SortedByCount` inserts from the back, so ties keep their original
      order, as Python's stable `sorted` does. */
  lemma {:induction false} InsertByCountPlaces(e: (string, int), s: seq<(string, int)>)
    requires forall i, j :: 0 <= i < j < |s| ==> s[i].1 >= s[j].1
    ensures exists k: nat :: PlacedAt(e, s, k, InsertByCount(e, s))
  {
    if s == [] || s[0].1 <= e.1 {
      assert s[..0] == [] && s[0..] == s;
      assert PlacedAt(e, s, 0, InsertByCount(e, s));
    } else {
      var t := s[1..];
      InsertByCountPlaces(e, t);
      var k: nat :| PlacedAt(e, t, k, InsertByCount(e, t));
      InsertByCountBehind(e, s);
      PlacedBehind(s[0], e, t, k, InsertByCount(e, t));
      assert PlacedAt(e, s, k + 1, InsertByCount(e, s));
    }
  }

  /** Past an entry that counts more than `e`, the insertion goes on in the tail. */
  lemma InsertByCountBehind(e: (string, int), s: seq<(string, int)>)
    requires forall i, j :: 0 <= i < j < |s| ==> s[i].1 >= s[j].1
    requires s != [] && s[0].1 > e.1
    ensures s == [s[0]] + s[1..] && InsertByCount(e, s) == [s[0]] + InsertByCount(e, s[1..])
  {
    assert s == [s[0]] + s[1..];
  }

  /** Putting an entry that counts more than `e` in front moves the place one on. */
  lemma PlacedBehind(x: (string, int), e: (string, int), t: seq<(string, int)>, k: nat, r: seq<(string, int)>)
    requires PlacedAt(e, t, k, r) && x.1 > e.1
    ensures PlacedAt(e, [x] + t, k + 1, [x] + r)
  {
    var s := [x] + t;
    assert s[..k + 1] == [x] + t[..k] && s[k + 1..] == t[k..];
    forall i | 0 <= i < k + 1 ensures s[i].1 > e.1 {
      if i > 0 {
        assert s[i] == t[i - 1];
      }
    }
    assert k + 1 < |s| ==> s[k + 1] == t[k];
  }

  /** An entry counting at least as much as the head of a sorted list keeps it sorted in front. */
  lemma ConsByCount(e: (string, int), s: seq<(string, int)>)
    requires forall i, j :: 0 <= i < j < |s| ==> s[i].1 >= s[j].1
    requires s != [] ==> e.1 >= s[0].1
    ensures forall i, j :: 0 <= i < j < |[e] + s| ==> ([e] + s)[i].1 >= ([e] + s)[j].1
  {
    var r := [e] + s;
    forall i, j | 0 <= i < j < |r| ensures r[i].1 >= r[j].1 {
      if i == 0 {
        assert r[j] == s[j - 1];
      } else {
        assert r[i] == s[i - 1] && r[j] == s[j - 1];
      }
    }
  }

  /** `x[:-1]` */
  function DropLast(x: string): string {
    if x == [] then [] else x[..|x| - 1]
  }

  /** What `query(x)` leaves in `output`: the `dfs` list of the node for `x`,
      or nothing when `x` has no path (trie.py:159-170). */
  function QueryOutput(root: Node, x: string): seq<(string, int)> {
    if Walk(root, x).Some? then Collected(Walk(root, x).value, DropLast(x), 0) else []
  }

  /** `query(x)` (trie.py:150-172). */
  function Queried(root: Node, x: string): (r: seq<(string, int)>)
    ensures forall i, j :: 0 <= i < j < |r| ==> r[i].1 >= r[j].1
  {
    match Walk(root, x)
    case None => []
    case Some(n) => SortedByCount(Collected(n, DropLast(x), 0))
  }

  class Trie {
    var root: Node
    var output: seq<(string, int)>

    ghost predicate Valid()
      reads this`root
    {
      WellFormed(root) && root.ch == []
    }

    /** trie.py:26-31 */
    constructor ()
      ensures Valid() && root == NewNode([]) && output == []
    {
      root := NewNode([]);
      output := [];
    }

    /** trie.py:64-77 */
    method Insert(word: string)
      requires Valid()
      modifies this
      ensures Valid() && root == Inserted(old(root), word) && output == old(output)
    {
      // walk down, reusing or creating one child per character (`__insert`)
      var path := [root];
      var node := root;
      for i := 0 to |word|
        invariant |path| == i + 1 && path[0] == root && node == path[i]
        invariant forall j :: 0 <= j < i ==> path[j + 1] == ChildOrNew(path[j], word[j])
      {
        node := ChildOrNew(node, word[i]);
        path := path + [node];
      }
      node := node.(isEnd := true, counter := node.counter + 1);
      // store each changed node in its parent
      var i := |word|;
      while i > 0
        invariant 0 <= i <= |word|
        invariant node == Inserted(path[i], word[i..])
      {
        i := i - 1;
        assert word[i..][1..] == word[i + 1..];
        node := Attach(path[i], word[i], node);
      }
      InsertedWellFormed(root, word);
      root := node;
    }

    /** trie.py:79-89 */
    method Find(word: string) returns (r: bool)
      ensures r == Found(root, word)
    {
      var node := root;
      var i := 0;
      while i < |word|
        invariant 0 <= i <= |word|
        invariant Found(root, word) == Found(node, word[i..])
      {
        if word[i] in node.children {
          assert word[i..][1..] == word[i + 1..];
          node := node.children[word[i]];
        } else {
          break;
        }
        i := i + 1;
      }
      r := node.isEnd;
    }

    /** The walk of `remove` down `w` (trie.py:93-97): the nodes passed, or
        `found == false` at the first missing character. */
    method PathTo(w: string) returns (found: bool, path: seq<Node>)
      ensures found == Walk(root, w).Some?
      ensures found ==> |path| == |w| + 1 && path[0] == root && Walk(root, w) == Some(path[|w|])
      ensures found ==> forall j :: 0 <= j < |w| ==> w[j] in path[j].children && path[j + 1] == path[j].children[w[j]]
    {
      path := [root];
      var node := root;
      for i := 0 to |w|
        invariant |path| == i + 1 && path[0] == root && node == path[i]
        invariant Walk(root, w[..i]) == Some(node)
        invariant forall j :: 0 <= j < i ==> w[j] in path[j].children && path[j + 1] == path[j].children[w[j]]
      {
        if w[i] !in node.children {
          WalkAppend(root, w[..i], w[i..]);
          assert w[..i] + w[i..] == w;
          return false, path;
        }
        WalkAppend(root, w[..i], [w[i]]);
        assert w[..i] + [w[i]] == w[..i + 1];
        node := node.children[w[i]];
        path := path + [node];
      }
      assert w[..|w|] == w;
      found := true;
    }

    /** trie.py:91-105; the source raises on an empty word. */
    method Remove(word: string) returns (ok: bool)
      requires Valid() && word != []
      modifies this
      ensures Valid() && (ok, root) == Removed(old(root), word) && output == old(output)
    {
      RemovedIff(root, word);
      var last := word[|word| - 1];
      WalkAppend(root, word[..|word| - 1], [last]);
      assert word[..|word| - 1] + [last] == word;
      var found, path := PathTo(word[..|word| - 1]);
      if !found || last !in path[|word| - 1].children {
        return false;
      }
      var node := Reattached(path, word);
      RemovedWellFormed(root, word);
      root := node;
      ok := true;
    }

    /** `node.counter -= 1; del node.children[word[-1]]` (trie.py:100-103) at
        the end of `path`, then every changed node stored back in its parent. */
    static method Reattached(path: seq<Node>, word: string) returns (node: Node)
      requires word != [] && |path| == |word|
      requires forall j :: 0 <= j < |word| - 1 ==> word[j] in path[j].children && path[j + 1] == path[j].children[word[j]]
      requires word[|word| - 1] in path[|word| - 1].children
      ensures (true, node) == Removed(path[0], word)
    {
      var bottom := path[|word| - 1];
      node := Detach(bottom.(counter := bottom.counter - 1), word[|word| - 1]);
      var i := |word| - 1;
      while i > 0
        invariant 0 <= i <= |word| - 1
        invariant (true, node) == Removed(path[i], word[i..])
      {
        i := i - 1;
        assert word[i..][1..] == word[i + 1..];
        node := path[i].(children := path[i].children[word[i] := node]);
      }
    }

    /** trie.py:134-148 */
    method Dfs(node: Node, prefix: string, depth: nat)
      requires depth <= MaxDepth
      modifies this`output
      ensures output == old(output) + Collected(node, prefix, depth)
      decreases MaxDepth - depth, 0
    {
      if depth == MaxDepth {
        return;
      }
      if node.isEnd {
        output := output + [(prefix + node.ch, node.counter)];
      }
      DfsChildren(node.children, node.order, prefix + node.ch, depth + 1);
    }

    /** The loop over the children in `dfs` (trie.py:147-148): each child in
        `keys` is searched in turn, one level deeper. */
    method DfsChildren(children: map<char, Node>, keys: seq<char>, prefix: string, depth: nat)
      requires depth <= MaxDepth
      modifies this`output
      ensures output == old(output) + CollectedChildren(children, keys, prefix, depth)
      decreases MaxDepth - depth, 1
    {
      ghost var start := output;
      for j := 0 to |keys|
        invariant output == start + CollectedChildren(children, keys[..j], prefix, depth)
      {
        var key := keys[j];
        assert keys[..j + 1][..j] == keys[..j];
        if key in children {
          Dfs(children[key], prefix, depth);
        }
      }
      assert keys[..|keys|] == keys;
    }

    /** trie.py:150-172 */
    method Query(x: string) returns (res: seq<(string, int)>)
      modifies this`output
      ensures res == Queried(root, x)
      ensures output == QueryOutput(root, x)
    {
      output := [];
      var node := root;
      for i := 0 to |x|
        invariant output == []
        invariant Walk(root, x[..i]) == Some(node)
      {
        WalkAppend(root, x[..i], x[i..]);
        assert x[..i] + x[i..] == x;
        if x[i] in node.children {
          WalkAppend(root, x[..i], [x[i]]);
          assert x[..i] + [x[i]] == x[..i + 1];
          node := node.children[x[i]];
        } else {
          return [];
        }
      }
      assert x[..|x|] == x;
      Dfs(node, DropLast(x), 0);
      assert output == Collected(node, DropLast(x), 0);
      res := SortedByCount(output);
    }
  }
}
