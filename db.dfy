/**
 * The record engine of NegativeDB/db.py: the class `NegativeDB`, which frames
 * a text as a CRC-protected bit string, turns the record into a set of
 * hard-to-reverse patterns and keeps those patterns in a trie.
 *
 * The text handler (`TEXTHANDLER.ConvertAlphabetsToBinary`) is the
 * constructor parameter `encode`; the seeded random generator is the stream
 * `stream` of the module `Patterns`, with `maxPasses` passes of fuel for each
 * flip loop.
 */
module NegativeDb {
  import opened Wrappers
  import opened Crc
  import opened TrieStore
  import opened TrieQuery
  import opened Patterns

  // ------------------------------------------------------------- framing

  /** `s.zfill(width)` for a string without a sign: zeros in front until it
      is `width` characters long. */
  function ZFill(s: string, width: nat): (r: string)
    ensures |r| == if |s| < width then width else |s|
    ensures r[|r| - |s|..] == s
    ensures forall i :: 0 <= i < |r| - |s| ==> r[i] == '0'
  {
    if |s| < width then Repeat('0', width - |s|) + s else s
  }

  /** The record `__prepInput` builds from the encoded text (db.py:112-115):
      the zero-filled text followed by its CRC remainder. */
  function Frame(txtBin: string, l: nat, poly: string): string
    requires IsBinary(poly) && '1' in poly
  {
    StrippedPoly(poly);
    var padded := ZFill(txtBin, l);
    padded + Remainder(padded, '0', StripZeros(poly))
  }

  /** The remainder of binary input is binary. */
  lemma RemainderBinary(input: string, poly: string)
    requires poly != [] && poly[0] == '1' && IsBinary(input)
    ensures IsBinary(Remainder(input, '0', poly))
  {
    var a := input + Repeat('0', |poly| - 1);
    var f := Divide(a, |input|, poly).value;
    assert forall j :: 0 <= j < |a| ==> IsBit(a[j]);
    assert forall i :: 0 <= i < |f[|input|..]| ==> f[|input|..][i] == f[|input| + i];
  }

  lemma ZFillBinary(s: string, width: nat)
    requires IsBinary(s)
    ensures IsBinary(ZFill(s, width))
  {
    var r := ZFill(s, width);
    forall i | 0 <= i < |r| ensures IsBit(r[i]) {
      if i >= |r| - |s| {
        assert r[i] == r[|r| - |s|..][i - (|r| - |s|)];
      }
    }
  }

  /** A framed record of a binary text is binary, `l` bits of zero-filled
      text (when the text fits) followed by the remainder bits. */
  lemma FrameShape(txtBin: string, l: nat, poly: string)
    requires IsBinary(poly) && '1' in poly && IsBinary(txtBin)
    ensures var r := Frame(txtBin, l, poly);
      && IsBinary(r)
      && |r| == (if |txtBin| < l then l else |txtBin|) + |StripZeros(poly)| - 1
      && (|txtBin| <= l ==> r[..l] == ZFill(txtBin, l))
  {
    StrippedPoly(poly);
    var padded := ZFill(txtBin, l);
    var rem := Remainder(padded, '0', StripZeros(poly));
    ZFillBinary(txtBin, l);
    RemainderBinary(padded, StripZeros(poly));
    assert Frame(txtBin, l, poly) == padded + rem;
    assert IsBinary(padded + rem) by {
      forall i | 0 <= i < |padded + rem| ensures IsBit((padded + rem)[i]) {
        if i >= |padded| {
          assert (padded + rem)[i] == rem[i - |padded|];
        }
      }
    }
  }

  /** `__verify(inputBin)` (db.py:86-98): the first `l` bits checked against the rest. */
  function Verified(inputBin: string, l: nat, poly: string): Option<bool>
    requires IsBinary(poly) && '1' in poly
  {
    StrippedPoly(poly);
    var cut := if |inputBin| < l then |inputBin| else l;
    Check(inputBin[..cut], inputBin[cut..], StripZeros(poly))
  }

  /** A framed record whose text fits in `l` bits passes `__verify`. */
  lemma FrameVerifies(txtBin: string, l: nat, poly: string)
    requires IsBinary(poly) && '1' in poly && |txtBin| <= l
    ensures Verified(Frame(txtBin, l, poly), l, poly) == Some(true)
  {
    StrippedPoly(poly);
    var padded := ZFill(txtBin, l);
    var rec := Frame(txtBin, l, poly);
    assert rec[..l] == padded && rec[l..] == Remainder(padded, '0', StripZeros(poly));
    RoundTrip(padded, StripZeros(poly));
  }

  /** `__prepInput(text)` (db.py:100-117): texts longer than `l // 8`
      characters are refused, the others framed. */
  function Prepared(text: string, st: Param, encode: string -> string, poly: string): Result<string, Fault>
    requires IsBinary(poly) && '1' in poly
  {
    if |text| > st.l / 8 then Err(TooLong(|text|, st.l / 8))
    else Ok(Frame(encode(text), st.l, poly))
  }

  /** A polynomial with leading zeros frames like the stripped one, so the
      stripping the CRC writes back changes nothing for later calls. */
  lemma PreparedIgnoresLeadingZeros(text: string, st: Param, encode: string -> string, poly: string)
    requires IsBinary(poly) && '1' in poly
    ensures IsBinary(StripZeros(poly)) && '1' in StripZeros(poly)
    ensures Prepared(text, st, encode, StripZeros(poly)) == Prepared(text, st, encode, poly)
  {
    StrippedPoly(poly);
  }

  /** The patterns `Insert(text)` and `Delete(text)` produce: the text is
      framed and the record turned into patterns. */
  function Records(text: string, st: Param, encode: string -> string, stream: nat -> nat, fuel: nat, poly: string)
    : Result<set<string>, Fault>
    requires IsBinary(poly) && '1' in poly && IsBinary(encode(text))
  {
    match Prepared(text, st, encode, poly)
    case Err(e) => Err(e)
    case Ok(rec) =>
      FrameShape(encode(text), st.l, poly);
      Generate(rec, st, stream, fuel)
  }

  // ------------------------------------------------- the store of patterns

  /** `order` lists the members of `s`, each once: the order in which a
      loop over the set visits them. */
  ghost predicate Lists(order: seq<string>, s: set<string>) {
    && (forall i, j :: 0 <= i < j < |order| ==> order[i] != order[j])
    && (forall p :: p in order <==> p in s)
  }

  /** One step of a loop over a set: `x`, taken from the members not yet
      visited, is listed after the ones visited so far. */
  lemma ListsStep(order: seq<string>, s: set<string>, rest: set<string>, x: string)
    requires rest <= s && Lists(order, s - rest) && x in rest
    ensures rest - {x} <= s && Lists(order + [x], s - (rest - {x}))
    ensures (order + [x])[..|order|] == order
  {
    assert s - (rest - {x}) == (s - rest) + {x};
  }

  /** The trie after `insert` of each word of `ws` in turn (db.py:130-131). */
  function InsertSeq(n: Node, ws: seq<string>): Node {
    if ws == [] then n else Inserted(InsertSeq(n, ws[..|ws| - 1]), ws[|ws| - 1])
  }

  /** Inserting a sequence of words stores exactly those words in addition and
      counts each once per occurrence. */
  lemma {:induction false} InsertSeqEffect(n: Node, ws: seq<string>, v: string)
    ensures Stored(InsertSeq(n, ws), v) == (v in ws || Stored(n, v))
    ensures Count(InsertSeq(n, ws), v) == Count(n, v) + multiset(ws)[v]
    ensures WellFormed(n) ==> WellFormed(InsertSeq(n, ws)) && InsertSeq(n, ws).ch == n.ch
  {
    if ws != [] {
      var t, w := ws[..|ws| - 1], ws[|ws| - 1];
      assert ws == t + [w];
      InsertSeqEffect(n, t, v);
      InsertedWalk(InsertSeq(n, t), w, v);
      if WellFormed(n) {
        InsertedWellFormed(InsertSeq(n, t), w);
      }
    }
  }

  /** The trie after `remove` of each word of `ws` in turn (db.py:208-209). */
  function RemoveSeq(n: Node, ws: seq<string>): Node
    requires forall i :: 0 <= i < |ws| ==> ws[i] != []
  {
    if ws == [] then n else Removed(RemoveSeq(n, ws[..|ws| - 1]), ws[|ws| - 1]).1
  }

  /** One `remove(w)` creates no path and no stored word, and leaves no
      node for `w`. */
  lemma RemovedShrinks(n: Node, w: string, v: string)
    requires w != []
    ensures Walk(Removed(n, w).1, v).Some? ==> Walk(n, v).Some? && v != w
    ensures Stored(Removed(n, w).1, v) ==> Stored(n, v)
  {
    RemovedIff(n, w);
    if Removed(n, w).0 {
      RemovedWalk(n, w, v);
      if v <= w && v != w {
        assert v <= w[..|w| - 1];
      }
    }
  }

  /** Removing a sequence of words leaves no node for any of them and
      stores nothing that was not stored before. */
  lemma {:induction false} RemoveSeqEffect(n: Node, ws: seq<string>, v: string)
    requires forall i :: 0 <= i < |ws| ==> ws[i] != []
    ensures Walk(RemoveSeq(n, ws), v).Some? ==> Walk(n, v).Some? && v !in ws
    ensures Stored(RemoveSeq(n, ws), v) ==> Stored(n, v)
    ensures WellFormed(n) ==> WellFormed(RemoveSeq(n, ws)) && RemoveSeq(n, ws).ch == n.ch
  {
    if ws != [] {
      var t, w := ws[..|ws| - 1], ws[|ws| - 1];
      assert ws == t + [w];
      RemoveSeqEffect(n, t, v);
      RemovedShrinks(RemoveSeq(n, t), w, v);
      if WellFormed(n) {
        RemovedWellFormed(RemoveSeq(n, t), w);
      }
    }
  }

  // ----------------------------------------------------------- emptiness

  /** Whether some node at or below `n` is marked as the end of a word. */
  predicate AnyEnd(n: Node) {
    n.isEnd || exists c :: c in n.children && AnyEnd(n.children[c])
  }

  lemma {:induction false} StoredAnyEnd(n: Node, w: string)
    requires Stored(n, w)
    ensures AnyEnd(n)
  {
    if w != [] {
      StoredAnyEnd(n.children[w[0]], w[1..]);
    }
  }

  lemma {:induction false} AnyEndStored(n: Node) returns (w: string)
    requires AnyEnd(n)
    ensures Stored(n, w)
  {
    if n.isEnd {
      w := [];
    } else {
      var c :| c in n.children && AnyEnd(n.children[c]);
      var u := AnyEndStored(n.children[c]);
      w := [c] + u;
      assert w[0] == c && w[1..] == u;
    }
  }

  /** Whether the subtree under the root's child `c` holds a stored word. */
  predicate Holds(root: Node, c: char) {
    c in root.children && AnyEnd(root.children[c])
  }

  /** The emptiness test `__isEmpty` is meant to be (db.py:189-195): no
      pattern is stored under '*', '0' or '1'. */
  predicate NoPatterns(root: Node) {
    !Holds(root, '*') && !Holds(root, '0') && !Holds(root, '1')
  }

  /** `NoPatterns` holds exactly when no stored word starts with '*', '0' or '1'. */
  lemma NoPatternsIff(root: Node)
    ensures NoPatterns(root) <==> forall w :: Stored(root, w) && w != [] ==> w[0] != '*' && w[0] != '0' && w[0] != '1'
  {
    if !NoPatterns(root) {
      var c := if Holds(root, '*') then '*' else if Holds(root, '0') then '0' else '1';
      assert Holds(root, c);
      var u := AnyEndStored(root.children[c]);
      var w := [c] + u;
      assert w[0] == c && w[1..] == u;
      assert Stored(root, w);
    } else {
      forall w | Stored(root, w) && w != []
        ensures w[0] != '*' && w[0] != '0' && w[0] != '1'
      {
        StoredAnyEnd(root.children[w[0]], w[1..]);
      }
    }
  }

  /** `__isEmpty` as the source writes it: `query` of "*", "0" and "1" all empty. */
  ghost predicate EmptyByQueries(root: Node) {
    Queried(root, "*") == [] && Queried(root, "0") == [] && Queried(root, "1") == []
  }

  /** The last query `__isEmpty` runs: it stops at the first of "*", "0" and
      "1" whose answer is not empty (db.py:190-193). */
  function LastEmptinessQuery(root: Node): string {
    if Queried(root, "*") != [] then "*" else if Queried(root, "0") != [] then "0" else "1"
  }

  /** The query at index `i` is the last one `__isEmpty` runs when the
      queries before it answered nothing and it answered something (or it is
      the third). */
  lemma LastQueryAt(root: Node, vals: seq<string>, i: nat)
    requires vals == ["*", "0", "1"] && i < 3
    requires i > 0 ==> Queried(root, "*") == []
    requires i > 1 ==> Queried(root, "0") == []
    requires i < 2 ==> Queried(root, vals[i]) != []
    ensures LastEmptinessQuery(root) == vals[i]
  {
  }

  /** `query(x)` for a one-character `x` lists nothing when every stored word
      is longer than `MaxDepth`: `dfs` stops 20 levels down. */
  lemma QueryMissesDeepWords(root: Node, x: string)
    requires WellFormed(root) && root.ch == [] && |x| == 1
    requires forall w :: Stored(root, w) ==> |w| > MaxDepth
    ensures Queried(root, x) == []
  {
    if Queried(root, x) != [] {
      QueriedSound(root, x, Queried(root, x)[0]);
    }
  }

  /** Patterns longer than `MaxDepth` escape the source's `__isEmpty`: a trie
      holding only such words passes all three queries as empty. */
  lemma DeepPatternsLookEmpty(root: Node)
    requires WellFormed(root) && root.ch == []
    requires forall w :: Stored(root, w) ==> |w| > MaxDepth
    ensures EmptyByQueries(root)
  {
    QueryMissesDeepWords(root, "*");
    QueryMissesDeepWords(root, "0");
    QueryMissesDeepWords(root, "1");
  }

  // ---------------------------------------------------------------- find

  lemma {:induction false} SubsetSize(a: set<string>, b: set<string>)
    requires a <= b
    ensures |a| <= |b|
    decreases |a|
  {
    if a != {} {
      var x :| x in a;
      SubsetSize(a - {x}, b - {x});
    }
  }

  /** The patterns `find` reports in the trie. */
  function FoundAmong(root: Node, s: set<string>): set<string> {
    set p | p in s && Found(root, p)
  }

  lemma FoundAmongAdd(root: Node, s: set<string>, x: string)
    requires x !in s
    ensures |FoundAmong(root, s + {x})| == |FoundAmong(root, s)| + if Found(root, x) then 1 else 0
  {
    if Found(root, x) {
      assert FoundAmong(root, s + {x}) == FoundAmong(root, s) + {x};
    } else {
      assert FoundAmong(root, s + {x}) == FoundAmong(root, s);
    }
  }

  /** How many of the patterns `find` reports in the trie (db.py:178-180). */
  function Matching(root: Node, s: set<string>): (k: nat)
    ensures k <= |s|
  {
    SubsetSize(FoundAmong(root, s), s);
    |FoundAmong(root, s)|
  }

  /** `__find(recordBin)` (db.py:159-187) once the emptiness test has given
      `empty`: false on an empty store, otherwise whether the share of the
      record's patterns that `find` reports exceeds `matchRatio`. */
  function Decide(root: Node, rec: string, st: Param, stream: nat -> nat, fuel: nat, empty: bool): Result<bool, Fault>
    requires IsBinary(rec)
  {
    if empty then Ok(false)
    else
      match Generate(rec, st, stream, fuel)
      case Err(e) => Err(e)
      case Ok(s) =>
        if s == {} then Err(DivisionByZero)
        else Ok(Matching(root, s) as real / |s| as real > st.matchRatio)
  }

  /** `Find(text)` (db.py:226-239) with the emptiness test `NoPatterns`. */
  function Answer(root: Node, text: string, st: Param, encode: string -> string, stream: nat -> nat, fuel: nat, poly: string)
    : Result<bool, Fault>
    requires IsBinary(poly) && '1' in poly && IsBinary(encode(text))
  {
    match Prepared(text, st, encode, poly)
    case Err(e) => Err(e)
    case Ok(rec) =>
      FrameShape(encode(text), st.l, poly);
      Decide(root, rec, st, stream, fuel, NoPatterns(root))
  }

  /** `Find(text)` (db.py:226-239) as written, with the emptiness test
      `EmptyByQueries` of `__isEmpty`. */
  ghost function AnswerAsWritten(root: Node, text: string, st: Param, encode: string -> string, stream: nat -> nat,
                                 fuel: nat, poly: string): Result<bool, Fault>
    requires IsBinary(poly) && '1' in poly && IsBinary(encode(text))
  {
    match Prepared(text, st, encode, poly)
    case Err(e) => Err(e)
    case Ok(rec) =>
      FrameShape(encode(text), st.l, poly);
      Decide(root, rec, st, stream, fuel, EmptyByQueries(root))
  }

  /** A fresh trie stores nothing. */
  lemma FreshStoresNothing(w: string)
    ensures !Stored(NewNode([]), w)
  {
    if w != [] {
      assert Walk(NewNode([]), w).None?;
    }
  }

  /** Every pattern that is stored is found, so a set of stored patterns is
      matched in full. */
  lemma MatchingAll(root: Node, s: set<string>)
    requires forall p :: p in s ==> Stored(root, p)
    ensures Matching(root, s) == |s|
  {
    forall p | p in s ensures Found(root, p) {
      FoundAtNode(root, p);
    }
    assert (set p | p in s && Found(root, p)) == s;
  }

  /**
   * Right after the patterns of a record are inserted, `__find` of the same
   * record regenerates the same patterns, finds all of them and answers
   * true, provided the store is judged non-empty by `NoPatterns` and the
   * threshold is below 1.
   */
  lemma InsertThenDecide(root: Node, rec: string, st: Param, stream: nat -> nat, fuel: nat, order: seq<string>)
    requires IsBinary(rec) && |rec| > 0 && st.r > 0.0 && st.matchRatio < 1.0
    requires Generate(rec, st, stream, fuel).Ok? && Lists(order, Generate(rec, st, stream, fuel).value)
    ensures Decide(InsertSeq(root, order), rec, st, stream, fuel, NoPatterns(InsertSeq(root, order))) == Ok(true)
  {
    var s := Generate(rec, st, stream, fuel).value;
    var after := InsertSeq(root, order);
    Generated(rec, st, stream, fuel);
    assert Rounds(|rec|, st.r) > 0 by {
      assert |rec| as real * st.r > 0.0;
    }
    forall p | p in s ensures Stored(after, p) {
      InsertSeqEffect(root, order, p);
    }
    var p :| p in s;
    assert p[0] == '*' || IsBit(p[0]);
    StoredAnyEnd(after.children[p[0]], p[1..]);
    assert !NoPatterns(after);
    MatchingAll(after, s);
    RatioOfAll(|s|);
    assert Decide(after, rec, st, stream, fuel, false) == Ok(|s| as real / |s| as real > st.matchRatio);
  }

  lemma RatioOfAll(k: nat)
    requires k > 0
    ensures k as real / k as real == 1.0
  {
  }

  /**
   * With the source's emptiness test the same situation answers false: the
   * patterns of a record longer than `MaxDepth`, inserted into a fresh trie,
   * are invisible to the three queries of `__isEmpty`, so `__find` returns
   * false right after `Insert`.
   */
  lemma InsertThenDecideAsWritten(rec: string, st: Param, stream: nat -> nat, fuel: nat, order: seq<string>)
    requires IsBinary(rec) && |rec| > MaxDepth
    requires Generate(rec, st, stream, fuel).Ok? && Lists(order, Generate(rec, st, stream, fuel).value)
    ensures Decide(InsertSeq(NewNode([]), order), rec, st, stream, fuel, EmptyByQueries(InsertSeq(NewNode([]), order))) == Ok(false)
  {
    var after := InsertSeq(NewNode([]), order);
    Generated(rec, st, stream, fuel);
    forall w | Stored(after, w) ensures |w| > MaxDepth {
      InsertSeqEffect(NewNode([]), order, w);
      FreshStoresNothing(w);
    }
    InsertSeqEffect(NewNode([]), order, []);
    DeepPatternsLookEmpty(after);
  }

  /** Inserting the patterns of a record into a fresh trie and deleting them
      again, each in any order, leaves nothing stored. */
  lemma InsertThenDeleteStoresNothing(s: set<string>, inserted: seq<string>, deleted: seq<string>, v: string)
    requires Lists(inserted, s) && Lists(deleted, s) && forall i :: 0 <= i < |deleted| ==> deleted[i] != []
    ensures !Stored(RemoveSeq(InsertSeq(NewNode([]), inserted), deleted), v)
  {
    var full := InsertSeq(NewNode([]), inserted);
    RemoveSeqEffect(full, deleted, v);
    InsertSeqEffect(NewNode([]), inserted, v);
    FreshStoresNothing(v);
  }

  /** After the patterns are deleted again, the corrected emptiness test
      sees an empty store, so `__find` answers false. */
  lemma InsertThenDeleteIsEmpty(s: set<string>, inserted: seq<string>, deleted: seq<string>)
    requires Lists(inserted, s) && Lists(deleted, s) && forall i :: 0 <= i < |deleted| ==> deleted[i] != []
    ensures NoPatterns(RemoveSeq(InsertSeq(NewNode([]), inserted), deleted))
  {
    var after := RemoveSeq(InsertSeq(NewNode([]), inserted), deleted);
    forall w ensures !Stored(after, w) {
      InsertThenDeleteStoresNothing(s, inserted, deleted, w);
    }
    NoPatternsIff(after);
  }

  /** `Delete(text)` after `Insert(text)` regenerates the very patterns the
      insertion stored: the only state between the calls, the polynomial,
      was stripped by the first call, which frames alike. */
  lemma DeleteRegeneratesInserted(text: string, st: Param, encode: string -> string, stream: nat -> nat, fuel: nat, poly: string)
    requires IsBinary(poly) && '1' in poly && IsBinary(encode(text))
    ensures IsBinary(StripZeros(poly)) && '1' in StripZeros(poly)
    ensures Records(text, st, encode, stream, fuel, StripZeros(poly)) == Records(text, st, encode, stream, fuel, poly)
  {
    PreparedIgnoresLeadingZeros(text, st, encode, poly);
  }

  /**
   * `Find(text)` right after a successful `Insert(text)` answers true: the
   * polynomial the insertion left behind frames the text alike, the same
   * patterns are drawn and every one of them is found.
   */
  lemma InsertThenFind(root: Node, text: string, st: Param, encode: string -> string, stream: nat -> nat, fuel: nat,
                       poly: string, order: seq<string>)
    requires IsBinary(poly) && '1' in poly && IsBinary(encode(text))
    requires st.l > 0 && st.r > 0.0 && st.matchRatio < 1.0
    requires Records(text, st, encode, stream, fuel, poly).Ok?
    requires Lists(order, Records(text, st, encode, stream, fuel, poly).value)
    ensures IsBinary(StripZeros(poly)) && '1' in StripZeros(poly)
    ensures Answer(InsertSeq(root, order), text, st, encode, stream, fuel, StripZeros(poly)) == Ok(true)
  {
    PreparedIgnoresLeadingZeros(text, st, encode, poly);
    var rec := Prepared(text, st, encode, poly).value;
    FrameShape(encode(text), st.l, poly);
    InsertThenDecide(root, rec, st, stream, fuel, order);
  }

  /**
   * The program as written answers the opposite: on a fresh database,
   * `Find(text)` right after a successful `Insert(text)` answers false,
   * because every framed record is longer than `MaxDepth` and its patterns
   * escape the three queries of `__isEmpty`.
   */
  lemma InsertThenFindAsWritten(text: string, st: Param, encode: string -> string, stream: nat -> nat, fuel: nat,
                                poly: string, order: seq<string>)
    requires IsBinary(poly) && '1' in poly && IsBinary(encode(text)) && st.l > MaxDepth
    requires Records(text, st, encode, stream, fuel, poly).Ok?
    requires Lists(order, Records(text, st, encode, stream, fuel, poly).value)
    ensures IsBinary(StripZeros(poly)) && '1' in StripZeros(poly)
    ensures AnswerAsWritten(InsertSeq(NewNode([]), order), text, st, encode, stream, fuel, StripZeros(poly)) == Ok(false)
  {
    PreparedIgnoresLeadingZeros(text, st, encode, poly);
    var rec := Prepared(text, st, encode, poly).value;
    FrameShape(encode(text), st.l, poly);
    StrippedPoly(poly);
    InsertThenDecideAsWritten(rec, st, stream, fuel, order);
  }

  // --------------------------------------------------------------- engine

  class NegativeDB {
    const crc: Crc
    const tree: Trie
    const settings: Param
    const encode: string -> string
    const stream: nat -> nat
    const maxPasses: nat

    ghost predicate Valid()
      reads crc, tree`root
    {
      crc.Valid() && tree.Valid() && forall t :: IsBinary(encode(t))
    }

    /** db.py:25-33 */
    constructor (encode: string -> string, stream: nat -> nat, maxPasses: nat)
      requires forall t :: IsBinary(encode(t))
      ensures Valid() && fresh(crc) && fresh(tree)
      ensures crc.polyBin == DefaultPoly && tree.root == NewNode([]) && settings == DefaultParam
      ensures this.encode == encode && this.stream == stream && this.maxPasses == maxPasses
    {
      this.encode := encode;
      this.stream := stream;
      this.maxPasses := maxPasses;
      assert DefaultPoly[1] == '1';
      crc := new Crc(DefaultPoly);
      tree := new Trie();
      settings := DefaultParam;
    }

    /** `__prepInput` (db.py:100-117); a refused text leaves the CRC as it was. */
    method PrepInput(text: string) returns (r: Result<string, Fault>)
      requires Valid()
      modifies crc
      ensures Valid()
      ensures r == Prepared(text, settings, encode, old(crc.polyBin))
      ensures crc.polyBin == if r.Err? then old(crc.polyBin) else StripZeros(old(crc.polyBin))
    {
      var limit := settings.l / 8;
      if |text| > limit {
        return Err(TooLong(|text|, limit));
      }
      var txtBin := encode(text);
      var padded := ZFill(txtBin, settings.l);
      var remainder := crc.CrcRemainder(padded, '0');
      r := Ok(padded + remainder);
    }

    /** `__verify` (db.py:86-98) */
    method VerifyRecord(inputBin: string) returns (r: Option<bool>)
      requires Valid()
      modifies crc
      ensures Valid() && crc.polyBin == StripZeros(old(crc.polyBin))
      ensures r == Verified(inputBin, settings.l, old(crc.polyBin))
    {
      var cut := if |inputBin| < settings.l then |inputBin| else settings.l;
      r := crc.CrcCheck(inputBin[..cut], inputBin[cut..]);
    }

    /** The loop `for record in ndbRecords: self.tree.insert(record)`
        (db.py:130-131), visiting the set in some order. */
    method InsertEach(records: set<string>) returns (ghost order: seq<string>)
      requires Valid()
      modifies tree
      ensures Valid() && tree.output == old(tree.output)
      ensures Lists(order, records) && tree.root == InsertSeq(old(tree.root), order)
    {
      order := [];
      var rest := records;
      while rest != {}
        invariant Valid() && tree.output == old(tree.output)
        invariant rest <= records && Lists(order, records - rest)
        invariant tree.root == InsertSeq(old(tree.root), order)
        decreases |rest|
      {
        var record :| record in rest;
        tree.Insert(record);
        ListsStep(order, records, rest, record);
        order := order + [record];
        rest := rest - {record};
      }
    }

    /** `__insert` (db.py:119-135): every generated pattern goes into the trie. */
    method InsertRecord(recordBin: string) returns (r: Result<set<string>, Fault>, ghost order: seq<string>)
      requires Valid() && IsBinary(recordBin)
      modifies tree
      ensures Valid() && tree.output == old(tree.output)
      ensures r == Generate(recordBin, settings, stream, maxPasses)
      ensures r.Ok? ==> Lists(order, r.value) && tree.root == InsertSeq(old(tree.root), order)
      ensures r.Err? ==> tree.root == old(tree.root)
    {
      order := [];
      r := GenerateHardToReverse(recordBin, settings, stream, maxPasses);
      if r.Ok? {
        order := InsertEach(r.value);
      }
    }

    /** The loop `for record in ndbRecords: self.tree.remove(record)`
        (db.py:208-209), visiting the set in some order. */
    method RemoveEach(records: set<string>) returns (ghost order: seq<string>)
      requires Valid() && forall p :: p in records ==> p != []
      modifies tree
      ensures Valid() && tree.output == old(tree.output)
      ensures Lists(order, records) && (forall i :: 0 <= i < |order| ==> order[i] != [])
      ensures tree.root == RemoveSeq(old(tree.root), order)
    {
      order := [];
      var rest := records;
      while rest != {}
        invariant Valid() && tree.output == old(tree.output)
        invariant rest <= records && Lists(order, records - rest)
        invariant forall i :: 0 <= i < |order| ==> order[i] != []
        invariant tree.root == RemoveSeq(old(tree.root), order)
        decreases |rest|
      {
        var record :| record in rest;
        var isDeleted := tree.Remove(record);
        ListsStep(order, records, rest, record);
        order := order + [record];
        rest := rest - {record};
      }
    }

    /** `__delete` (db.py:197-211): every generated pattern is removed from the trie. */
    method DeleteRecord(recordBin: string) returns (r: Result<set<string>, Fault>, ghost order: seq<string>)
      requires Valid() && IsBinary(recordBin)
      modifies tree
      ensures Valid() && tree.output == old(tree.output)
      ensures r == Generate(recordBin, settings, stream, maxPasses)
      ensures r.Ok? ==> Lists(order, r.value) && (forall i :: 0 <= i < |order| ==> order[i] != [])
      ensures r.Ok? ==> tree.root == RemoveSeq(old(tree.root), order)
      ensures r.Err? ==> tree.root == old(tree.root)
    {
      order := [];
      r := GenerateHardToReverse(recordBin, settings, stream, maxPasses);
      if r.Ok? {
        Generated(recordBin, settings, stream, maxPasses);
        order := RemoveEach(r.value);
      }
    }

    /** The counting loop of `__find` (db.py:178-180). */
    method MatchCount(records: set<string>) returns (count: nat)
      ensures count == Matching(tree.root, records)
    {
      count := 0;
      var rest := records;
      ghost var done: set<string> := {};
      while rest != {}
        invariant rest <= records && done == records - rest
        invariant count == |FoundAmong(tree.root, done)|
        decreases |rest|
      {
        var record :| record in rest;
        var hit := tree.Find(record);
        FoundAmongAdd(tree.root, done, record);
        count := count + if hit then 1 else 0;
        done := done + {record};
        rest := rest - {record};
      }
      assert done == records;
    }

    /** `__isEmpty` as written (db.py:189-195): the three queries. */
    method IsEmptyAsWritten() returns (empty: bool)
      requires Valid()
      modifies tree`output
      ensures Valid() && tree.root == old(tree.root)
      ensures empty == EmptyByQueries(tree.root)
      ensures tree.output == QueryOutput(tree.root, LastEmptinessQuery(tree.root))
    {
      ghost var root := tree.root;
      var vals := ["*", "0", "1"];
      assert vals[0] == "*" && vals[1] == "0" && vals[2] == "1";
      for i := 0 to 3
        invariant Valid() && tree.root == root
        invariant i > 0 ==> Queried(root, "*") == []
        invariant i > 1 ==> Queried(root, "0") == []
        invariant i > 2 ==> Queried(root, "1") == []
        invariant i > 0 ==> tree.output == QueryOutput(root, vals[i - 1])
      {
        var found := tree.Query(vals[i]);
        if |found| > 0 {
          LastQueryAt(root, vals, i);
          return false;
        }
      }
      LastQueryAt(root, vals, 2);
      return true;
    }

    /** `__isEmpty` corrected: the same three subtrees, searched to any depth. */
    method IsEmpty() returns (empty: bool)
      ensures empty == NoPatterns(tree.root)
    {
      var vals := "*01";
      assert vals[0] == '*' && vals[1] == '0' && vals[2] == '1';
      for i := 0 to 3
        invariant forall j :: 0 <= j < i ==> !Holds(tree.root, vals[j])
      {
        if Holds(tree.root, vals[i]) {
          return false;
        }
      }
      return true;
    }

    /** The part of `__find` (db.py:175-187) after the emptiness test: draw the
        record's patterns, count the ones the trie finds and compare the share
        with `matchRatio`. */
    method DecideByRatio(recordBin: string) returns (r: Result<bool, Fault>)
      requires IsBinary(recordBin)
      ensures r == Decide(tree.root, recordBin, settings, stream, maxPasses, false)
    {
      var records := GenerateHardToReverse(recordBin, settings, stream, maxPasses);
      if records.Err? {
        return Err(records.error);
      }
      var count := MatchCount(records.value);
      if |records.value| == 0 {
        return Err(DivisionByZero);
      }
      var ratio := count as real / |records.value| as real;
      r := Ok(ratio > settings.matchRatio);
    }

    /** `__find` (db.py:159-187) as written: the emptiness test is the three
        depth-capped queries of `__isEmpty`. */
    method FindRecordAsWritten(recordBin: string) returns (r: Result<bool, Fault>)
      requires Valid() && IsBinary(recordBin)
      modifies tree`output
      ensures Valid() && tree.root == old(tree.root)
      ensures tree.output == QueryOutput(tree.root, LastEmptinessQuery(tree.root))
      ensures r == Decide(tree.root, recordBin, settings, stream, maxPasses, EmptyByQueries(tree.root))
    {
      var empty := IsEmptyAsWritten();
      if empty {
        return Ok(false);
      }
      r := DecideByRatio(recordBin);
    }

    /** `__find` (db.py:159-187) with the corrected emptiness test `IsEmpty`. */
    method FindRecord(recordBin: string) returns (r: Result<bool, Fault>)
      requires IsBinary(recordBin)
      ensures r == Decide(tree.root, recordBin, settings, stream, maxPasses, NoPatterns(tree.root))
    {
      var empty := IsEmpty();
      if empty {
        return Ok(false);
      }
      r := DecideByRatio(recordBin);
    }

    /** `Insert(text)` (db.py:213-224): a refused text changes nothing. */
    method Insert(text: string) returns (r: Result<set<string>, Fault>, ghost order: seq<string>)
      requires Valid()
      modifies crc, tree
      ensures Valid() && tree.output == old(tree.output)
      ensures r == Records(text, settings, encode, stream, maxPasses, old(crc.polyBin))
      ensures crc.polyBin == if |text| > settings.l / 8 then old(crc.polyBin) else StripZeros(old(crc.polyBin))
      ensures r.Ok? ==> Lists(order, r.value) && tree.root == InsertSeq(old(tree.root), order)
      ensures r.Err? ==> tree.root == old(tree.root)
    {
      order := [];
      var recordBin := PrepInput(text);
      if recordBin.Err? {
        return Err(recordBin.error), [];
      }
      FrameShape(encode(text), settings.l, old(crc.polyBin));
      r, order := InsertRecord(recordBin.value);
    }

    /** `Find(text)` (db.py:226-239) as written, through `FindRecordAsWritten`. */
    method FindAsWritten(text: string) returns (r: Result<bool, Fault>)
      requires Valid()
      modifies crc, tree`output
      ensures Valid() && tree.root == old(tree.root)
      ensures tree.output == if |text| > settings.l / 8 then old(tree.output)
        else QueryOutput(tree.root, LastEmptinessQuery(tree.root))
      ensures crc.polyBin == if |text| > settings.l / 8 then old(crc.polyBin) else StripZeros(old(crc.polyBin))
      ensures r == AnswerAsWritten(tree.root, text, settings, encode, stream, maxPasses, old(crc.polyBin))
    {
      var recordBin := PrepInput(text);
      if recordBin.Err? {
        return Err(recordBin.error);
      }
      FrameShape(encode(text), settings.l, old(crc.polyBin));
      r := FindRecordAsWritten(recordBin.value);
    }

    /** `Find(text)` (db.py:226-239) with the corrected emptiness test. */
    method Find(text: string) returns (r: Result<bool, Fault>)
      requires Valid()
      modifies crc
      ensures Valid() && crc.polyBin == if |text| > settings.l / 8 then old(crc.polyBin) else StripZeros(old(crc.polyBin))
      ensures r == Answer(tree.root, text, settings, encode, stream, maxPasses, old(crc.polyBin))
    {
      var recordBin := PrepInput(text);
      if recordBin.Err? {
        return Err(recordBin.error);
      }
      FrameShape(encode(text), settings.l, old(crc.polyBin));
      r := FindRecord(recordBin.value);
    }

    /** `Delete(text)` (db.py:241-252): a refused text changes nothing. */
    method Delete(text: string) returns (r: Result<set<string>, Fault>, ghost order: seq<string>)
      requires Valid()
      modifies crc, tree
      ensures Valid() && tree.output == old(tree.output)
      ensures r == Records(text, settings, encode, stream, maxPasses, old(crc.polyBin))
      ensures crc.polyBin == if |text| > settings.l / 8 then old(crc.polyBin) else StripZeros(old(crc.polyBin))
      ensures r.Ok? ==> Lists(order, r.value) && (forall i :: 0 <= i < |order| ==> order[i] != [])
      ensures r.Ok? ==> tree.root == RemoveSeq(old(tree.root), order)
      ensures r.Err? ==> tree.root == old(tree.root)
    {
      order := [];
      var recordBin := PrepInput(text);
      if recordBin.Err? {
        return Err(recordBin.error), [];
      }
      FrameShape(encode(text), settings.l, old(crc.polyBin));
      r, order := DeleteRecord(recordBin.value);
    }
  }
}
