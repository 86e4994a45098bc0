/**
 * Hard-to-reverse pattern generation of NegativeDB/db.py
 * (`__generateHardToReverseRecords`, db.py:36-84).
 *
 * Python's Mersenne Twister is replaced by an abstract stream of draws,
 * `stream: nat -> nat`, read from position 0 on every call because the source
 * reseeds with the fixed SEED each time. `randint(0, n - 1)` takes one draw
 * `d` and yields `d % n`; `random()` takes one draw and yields the 53-bit
 * fraction `Uniform(d)`. The flip loop of the source only ends when the stream
 * eventually flips a bit; here it gets `fuel` passes and fails with `NoFlip`
 * when they run out.
 */
module Patterns {
  import opened Wrappers
  import opened Crc

  /** The settings namedtuple `Param(l, r, k, q, matchRatio)` (db.py:29-33). */
  datatype Param = Param(l: nat, r: real, k: nat, q: real, matchRatio: real)

  const DefaultParam: Param := Param(1000, 5.5, 650, 0.5, 0.9)

  /** Why an engine call fails: the text is longer than `l // 8` characters
      (db.py:110-111); `randint(0, -1)` on an empty record; the flip loop never
      changed the pattern within its fuel; `match / len(ndbRecords)` on an
      empty set (db.py:182). */
  datatype Fault = TooLong(size: nat, limit: nat) | EmptyRange | NoFlip | DivisionByZero

  const Two53: nat := 0x20_0000_0000_0000

  /** `random.random()` for one draw: a multiple of 2^-53 in [0, 1). */
  function Uniform(d: nat): (x: real)
    ensures 0.0 <= x < 1.0
  {
    (d % Two53) as real / Two53 as real
  }

  /** The test `q <= random.random()` on one draw. */
  predicate Flipped(q: real, d: nat) {
    q <= Uniform(d)
  }

  /** How many times `while len(nDBLst) < nLen` runs, with `nLen = n * r`:
      the least count that reaches `nLen`. */
  function Rounds(n: nat, r: real): (m: nat)
    ensures m as real >= n as real * r
    ensures m > 0 ==> (m - 1) as real < n as real * r
  {
    var x := n as real * r;
    if x <= 0.0 then 0 else -((-x).Floor)
  }

  /** The loop test `len(nDBLst) < nLen` holds exactly for the counts below `Rounds`. */
  lemma RoundsTest(n: nat, r: real, c: nat)
    ensures c as real < n as real * r <==> c < Rounds(n, r)
  {
  }

  /** The loop test `len(nDBLst) < nLen` with `nLen = n * r` (db.py:50, db.py:62). */
  method BelowTarget(count: nat, n: nat, r: real) returns (b: bool)
    ensures b == (count < Rounds(n, r))
  {
    var nLen := n as real * r;
    b := count as real < nLen;
    RoundsTest(n, r, count);
  }

  /** `gammaLst` (db.py:63): `k` index draws starting at `pos`. */
  function Gamma(stream: nat -> nat, pos: nat, k: nat, n: nat): (g: seq<nat>)
    requires n > 0
    ensures |g| == k && forall j :: 0 <= j < k ==> g[j] < n
  {
    seq(k, j requires 0 <= j < k => stream(pos + j) % n)
  }

  /** `zlst` after the reveal loop (db.py:64-65): the record's bit at every
      drawn index and '*' everywhere else. */
  function Revealed(sBin: string, gamma: seq<nat>): (z: string)
    ensures |z| == |sBin|
  {
    seq(|sBin|, i requires 0 <= i < |sBin| => if i in gamma then sBin[i] else '*')
  }

  /** The shape of every pattern drawn with `gamma`: `n` cells, a bit at each
      drawn index and '*' at every other index. */
  ghost predicate Shaped(z: string, n: nat, gamma: seq<nat>) {
    |z| == n && forall i :: 0 <= i < n ==> (i in gamma ==> IsBit(z[i])) && (i !in gamma ==> z[i] == '*')
  }

  /** `negateBit` (db.py:55-58). */
  function Negate(c: char): (d: char)
    requires IsBit(c)
    ensures IsBit(d) && d != c
  {
    if c == '0' then '1' else '0'
  }

  /** One pass of the flip loop (db.py:71-73) from the `j`-th drawn index
      on: each index, in order, consumes one draw and is negated when
      `q <= random()`. The shape of the pattern survives the pass. */
  function FlipPass(z: string, g: seq<nat>, j: nat, stream: nat -> nat, pos: nat, q: real): (r: string)
    requires Shaped(z, |z|, g) && forall i :: 0 <= i < |g| ==> g[i] < |z|
    ensures Shaped(r, |z|, g)
    decreases |g| - j
  {
    if j >= |g| then z
    else
      var z' := if Flipped(q, stream(pos + j)) then z[g[j] := Negate(z[g[j]])] else z;
      FlipPass(z', g, j + 1, stream, pos, q)
  }

  /**
   * The loop `while prevzBin == curzBin` (db.py:70-74) entered with the
   * current pattern `z`: passes are made until the pattern differs from
   * `prev`; the pattern and the next stream position are returned.
   */
  function Flips(prev: string, z: string, gamma: seq<nat>, stream: nat -> nat, pos: nat, q: real, fuel: nat)
    : (r: Result<(string, nat), Fault>)
    requires Shaped(z, |z|, gamma) && forall j :: 0 <= j < |gamma| ==> gamma[j] < |z|
    ensures r.Ok? ==> Shaped(r.value.0, |z|, gamma) && r.value.0 != prev
    ensures r.Err? ==> r.error == NoFlip
    decreases fuel
  {
    if fuel == 0 then Err(NoFlip)
    else
      var z' := FlipPass(z, gamma, 0, stream, pos, q);
      if z' != prev then Ok((z', pos + |gamma|))
      else Flips(prev, z', gamma, stream, pos + |gamma|, q, fuel - 1)
  }

  /** One round of the outer loop (db.py:63-77) starting at stream position
      `pos`: the drawn pattern, which has '*' exactly at the undrawn indices
      and differs from the revealed record, and the next position. */
  function Round(sBin: string, st: Param, stream: nat -> nat, pos: nat, fuel: nat): (r: Result<(string, nat), Fault>)
    requires IsBinary(sBin)
    ensures r.Ok? ==> |sBin| > 0 && Shaped(r.value.0, |sBin|, Gamma(stream, pos, st.k, |sBin|))
    ensures r.Ok? ==> r.value.0 != Revealed(sBin, Gamma(stream, pos, st.k, |sBin|))
  {
    if |sBin| == 0 then Err(EmptyRange)
    else
      var gamma := Gamma(stream, pos, st.k, |sBin|);
      var z := Revealed(sBin, gamma);
      Flips(z, z, gamma, stream, pos + st.k, st.q, fuel)
  }

  /** A pattern over the record: one cell per record bit, each '*', '0' or '1'. */
  ghost predicate IsPattern(p: string, sBin: string) {
    |p| == |sBin| && forall i :: 0 <= i < |p| ==> p[i] == '*' || IsBit(p[i])
  }

  /** Whether the record lies in the set the pattern stands for: it agrees
      with every revealed cell. */
  ghost predicate Matches(p: string, sBin: string) {
    |p| == |sBin| && forall i :: 0 <= i < |p| ==> p[i] == '*' || p[i] == sBin[i]
  }

  /** A pattern of the right shape that is not the revealed record disagrees
      with the record at some revealed cell. */
  lemma ShapedDiffers(p: string, sBin: string, gamma: seq<nat>)
    requires Shaped(p, |sBin|, gamma) && p != Revealed(sBin, gamma)
    ensures IsPattern(p, sBin) && !Matches(p, sBin)
  {
    var z := Revealed(sBin, gamma);
    var i :| 0 <= i < |p| && p[i] != z[i];
    assert i in gamma;
  }

  /** The outer loop from the state `acc` (patterns so far) and stream
      position `pos`, with `m` rounds still to run. */
  function GenFrom(sBin: string, st: Param, stream: nat -> nat, fuel: nat, acc: seq<string>, pos: nat, m: nat)
    : (r: Result<seq<string>, Fault>)
    requires IsBinary(sBin)
    ensures r.Ok? ==> |r.value| == |acc| + m && r.value[..|acc|] == acc
    ensures r.Ok? ==> forall j :: |acc| <= j < |r.value| ==> IsPattern(r.value[j], sBin) && !Matches(r.value[j], sBin)
    ensures r.Ok? && m > 0 ==> |sBin| > 0
    decreases m
  {
    if m == 0 then Ok(acc)
    else
      match Round(sBin, st, stream, pos, fuel)
      case Err(e) => Err(e)
      case Ok((p, pos')) =>
        ShapedDiffers(p, sBin, Gamma(stream, pos, st.k, |sBin|));
        GenFrom(sBin, st, stream, fuel, acc + [p], pos', m - 1)
  }

  /** One round of the outer loop: its error ends the loop, its pattern is appended. */
  lemma GenFromStep(sBin: string, st: Param, stream: nat -> nat, fuel: nat, acc: seq<string>, pos: nat, m: nat)
    requires IsBinary(sBin) && m > 0
    ensures Round(sBin, st, stream, pos, fuel).Err? ==>
      GenFrom(sBin, st, stream, fuel, acc, pos, m) == Err(Round(sBin, st, stream, pos, fuel).error)
    ensures Round(sBin, st, stream, pos, fuel).Ok? ==>
      GenFrom(sBin, st, stream, fuel, acc, pos, m) ==
      GenFrom(sBin, st, stream, fuel, acc + [Round(sBin, st, stream, pos, fuel).value.0],
              Round(sBin, st, stream, pos, fuel).value.1, m - 1)
  {
  }

  /** `__generateHardToReverseRecords(sBin)`: the deduplicated patterns. */
  function Generate(sBin: string, st: Param, stream: nat -> nat, fuel: nat): Result<set<string>, Fault>
    requires IsBinary(sBin)
  {
    match GenFrom(sBin, st, stream, fuel, [], 0, Rounds(|sBin|, st.r))
    case Err(e) => Err(e)
    case Ok(ps) => Ok(set p | p in ps)
  }

  lemma {:induction false} SetOfSeqSize(s: seq<string>)
    ensures |set p | p in s| <= |s|
  {
    if s != [] {
      var t := s[..|s| - 1];
      SetOfSeqSize(t);
      assert (set p | p in s) == (set p | p in t) + {s[|s| - 1]} by {
        assert s == t + [s[|s| - 1]];
      }
    }
  }

  /**
   * What a successful generation returns: every pattern is a pattern over
   * the record that the record does not match, and the set is nonempty as
   * soon as the loop runs and never larger than its number of rounds.
   */
  lemma Generated(sBin: string, st: Param, stream: nat -> nat, fuel: nat)
    requires IsBinary(sBin) && Generate(sBin, st, stream, fuel).Ok?
    ensures var s := Generate(sBin, st, stream, fuel).value;
      && (forall p :: p in s ==> p != [] && IsPattern(p, sBin) && !Matches(p, sBin))
      && |s| <= Rounds(|sBin|, st.r)
      && (s == {} <==> Rounds(|sBin|, st.r) == 0)
  {
    var m := Rounds(|sBin|, st.r);
    var r := GenFrom(sBin, st, stream, fuel, [], 0, m);
    assert r.Ok?;
    var ps := r.value;
    var s := set p | p in ps;
    assert Generate(sBin, st, stream, fuel) == Ok(s);
    assert |ps| == m;
    SetOfSeqSize(ps);
    forall p | p in s ensures p != [] && IsPattern(p, sBin) && !Matches(p, sBin) {
      var j :| 0 <= j < |ps| && ps[j] == p;
    }
    if m > 0 {
      assert ps[0] in s;
    }
  }

  /** The deduplicated set of a completed outer loop is what `Generate` returns. */
  lemma GeneratedFrom(sBin: string, st: Param, stream: nat -> nat, fuel: nat, records: seq<string>)
    requires IsBinary(sBin) && GenFrom(sBin, st, stream, fuel, [], 0, Rounds(|sBin|, st.r)) == Ok(records)
    ensures Generate(sBin, st, stream, fuel) == Ok(set p | p in records)
    ensures forall p :: p in records ==> IsPattern(p, sBin) && !Matches(p, sBin)
  {
    Generated(sBin, st, stream, fuel);
  }

  lemma RevealedStep(sBin: string, gamma: seq<nat>, j: nat)
    requires j < |gamma| && gamma[j] < |sBin|
    ensures Revealed(sBin, gamma[..j + 1]) == Revealed(sBin, gamma[..j])[gamma[j] := sBin[gamma[j]]]
  {
    assert gamma[..j + 1] == gamma[..j] + [gamma[j]];
  }

  /** The reveal loop (db.py:64-65) on the all-'*' buffer `zlst`. */
  method RevealInto(z: array<char>, sBin: string, gamma: seq<nat>)
    requires z.Length == |sBin| && forall i :: 0 <= i < z.Length ==> z[i] == '*'
    requires forall j :: 0 <= j < |gamma| ==> gamma[j] < |sBin|
    modifies z
    ensures z[..] == Revealed(sBin, gamma)
  {
    assert z[..] == Revealed(sBin, gamma[..0]);
    for j := 0 to |gamma|
      invariant z[..] == Revealed(sBin, gamma[..j])
    {
      RevealedStep(sBin, gamma, j);
      z[gamma[j]] := sBin[gamma[j]];
    }
    assert gamma[..|gamma|] == gamma;
  }

  /** One pass of the flip loop (db.py:71-73) on the buffer. */
  method FlipInPlace(z: array<char>, gamma: seq<nat>, stream: nat -> nat, pos: nat, q: real)
    requires Shaped(z[..], z.Length, gamma) && forall i :: 0 <= i < |gamma| ==> gamma[i] < z.Length
    modifies z
    ensures z[..] == FlipPass(old(z[..]), gamma, 0, stream, pos, q)
  {
    for j := 0 to |gamma|
      invariant Shaped(z[..], z.Length, gamma)
      invariant FlipPass(z[..], gamma, j, stream, pos, q) == FlipPass(old(z[..]), gamma, 0, stream, pos, q)
    {
      var ind := gamma[j];
      if Flipped(q, stream(pos + j)) {
        z[ind] := Negate(z[ind]);
      }
    }
  }

  /** The loop `while prevzBin == curzBin` (db.py:70-74) on the buffer,
      entered with the buffer equal to `prev`. */
  method FlipUntilChanged(z: array<char>, prev: string, gamma: seq<nat>, stream: nat -> nat, pos: nat, q: real, fuel: nat)
    returns (r: Result<(string, nat), Fault>)
    requires z[..] == prev && Shaped(prev, z.Length, gamma) && forall i :: 0 <= i < |gamma| ==> gamma[i] < z.Length
    modifies z
    ensures r == Flips(prev, prev, gamma, stream, pos, q, fuel)
  {
    var cur := z[..];
    var next: nat := pos;
    var passes: nat := 0;
    while prev == cur
      invariant passes <= fuel && z[..] == cur && Shaped(cur, z.Length, gamma)
      invariant cur == prev ==> Flips(prev, cur, gamma, stream, next, q, fuel - passes) == Flips(prev, prev, gamma, stream, pos, q, fuel)
      invariant cur != prev ==> Flips(prev, prev, gamma, stream, pos, q, fuel) == Ok((cur, next))
      decreases fuel - passes
    {
      if passes == fuel {
        return Err(NoFlip);
      }
      FlipInPlace(z, gamma, stream, next, q);
      next := next + |gamma|;
      cur := z[..];
      passes := passes + 1;
    }
    r := Ok((cur, next));
  }

  /** Revealing a binary record gives a pattern of the shape `gamma` asks for. */
  lemma RevealedShaped(sBin: string, gamma: seq<nat>)
    requires IsBinary(sBin)
    ensures Shaped(Revealed(sBin, gamma), |sBin|, gamma)
  {
    var z := Revealed(sBin, gamma);
    forall i | 0 <= i < |sBin| ensures (i in gamma ==> IsBit(z[i])) && (i !in gamma ==> z[i] == '*') {
      assert IsBit(sBin[i]);
    }
  }

  /** One round of the outer loop (db.py:63-79): draw `gammaLst`, reveal,
      flip until the buffer differs from the revealed record. */
  method DrawPattern(sBin: string, st: Param, stream: nat -> nat, pos: nat, fuel: nat)
    returns (r: Result<(string, nat), Fault>)
    requires IsBinary(sBin)
    ensures r == Round(sBin, st, stream, pos, fuel)
  {
    var n := |sBin|;
    if n == 0 {
      return Err(EmptyRange);
    }
    var z := new char[n](_ => '*');
    var gamma := Gamma(stream, pos, st.k, n);
    RevealInto(z, sBin, gamma);
    var prev := z[..];
    RevealedShaped(sBin, gamma);
    assert Round(sBin, st, stream, pos, fuel) == Flips(prev, prev, gamma, stream, pos + st.k, st.q, fuel);
    r := FlipUntilChanged(z, prev, gamma, stream, pos + st.k, st.q, fuel);
  }

  /**
   * `__generateHardToReverseRecords` as the source runs it: rounds are drawn
   * until `len(nDBLst)` reaches `len(sBin) * r`, then deduplicated.
   */
  method GenerateHardToReverse(sBin: string, st: Param, stream: nat -> nat, fuel: nat)
    returns (res: Result<set<string>, Fault>)
    requires IsBinary(sBin)
    ensures res == Generate(sBin, st, stream, fuel)
    ensures res.Ok? ==> forall p :: p in res.value ==> IsPattern(p, sBin) && !Matches(p, sBin)
  {
    var n := |sBin|;
    var records: seq<string> := [];
    var pos: nat := 0;
    ghost var m := Rounds(n, st.r);
    ghost var left := m;
    ghost var whole := GenFrom(sBin, st, stream, fuel, [], 0, m);
    var more := BelowTarget(|records|, n, st.r);
    while more
      invariant left == m - |records| >= 0 && more == (left > 0)
      invariant GenFrom(sBin, st, stream, fuel, records, pos, left) == whole
      decreases left
    {
      var drawn := DrawPattern(sBin, st, stream, pos, fuel);
      GenFromStep(sBin, st, stream, fuel, records, pos, left);
      if drawn.Err? {
        return Err(drawn.error);
      }
      records := records + [drawn.value.0];
      pos := drawn.value.1;
      left := left - 1;
      more := BelowTarget(|records|, n, st.r);
    }
    assert whole == Ok(records);
    res := Ok(set p | p in records);
    GeneratedFrom(sBin, st, stream, fuel, records);
  }
}
