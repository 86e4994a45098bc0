/**
 * The cyclic redundancy check of NegativeDB/crc.py: modulo-2 polynomial long
 * division over strings of '0' and '1'.
 *
 * The division is specified by the function `Divide` on values and carried
 * out in place on an array by `DivideInPlace`; the class `Crc` holds the
 * polynomial, which every call strips of its leading zeros and writes back.
 */
module Crc {
  import opened Wrappers

  /** The polynomial a `Crc` uses when the caller gives none. */
  const DefaultPoly: string := "011010111100000011110101"

  predicate IsBit(c: char) {
    c == '0' || c == '1'
  }

  predicate IsBinary(s: string) {
    forall i :: 0 <= i < |s| ==> IsBit(s[i])
  }

  /** One cell of the XOR pass: the digit of `int(p != x)`. */
  function Xor(p: char, x: char): char {
    if p != x then '1' else '0'
  }

  /** `s.lstrip('0')` */
  function StripZeros(s: string): (r: string)
    ensures |r| <= |s| && r == s[|s| - |r|..]
    ensures forall i :: 0 <= i < |s| - |r| ==> s[i] == '0'
    ensures r == [] || r[0] != '0'
  {
    if s != [] && s[0] == '0' then StripZeros(s[1..]) else s
  }

  /** A polynomial that is binary and has a set bit keeps both after stripping,
      starts with '1' afterwards, and stripping it again changes nothing. */
  lemma StrippedPoly(p: string)
    requires IsBinary(p) && '1' in p
    ensures var q := StripZeros(p);
      q != [] && q[0] == '1' && IsBinary(q) && '1' in q && StripZeros(q) == q
  {
    var q := StripZeros(p);
    var i :| 0 <= i < |p| && p[i] == '1';
    assert |p| - |q| <= i;
    assert q[0] == p[|p| - |q|];
    forall k | 0 <= k < |q| ensures IsBit(q[k]) {
      assert q[k] == p[|p| - |q| + k];
    }
  }

  /** The remainder of the default polynomial has 22 bits. */
  lemma DefaultPolyDegree()
    ensures |StripZeros(DefaultPoly)| - 1 == 22
  {
    assert DefaultPoly[0] == '0' && DefaultPoly[1] == '1';
    assert StripZeros(DefaultPoly) == StripZeros(DefaultPoly[1..]) == DefaultPoly[1..];
  }

  /** The index of the first '1' among the first `n` cells, or `n` when they hold none. */
  function FirstOne(a: string, n: nat): (s: nat)
    requires n <= |a|
    ensures s <= n
    ensures s < n ==> a[s] == '1'
    ensures forall j :: 0 <= j < s ==> a[j] != '1'
  {
    if n == 0 then 0
    else
      var s := FirstOne(a, n - 1);
      if s < n - 1 || a[n - 1] == '1' then s else n
  }

  /** The three facts in `FirstOne`'s contract determine it. */
  lemma FirstOneUnique(a: string, n: nat, s: nat)
    requires n <= |a| && s <= n
    requires s < n ==> a[s] == '1'
    requires forall j :: 0 <= j < s ==> a[j] != '1'
    ensures FirstOne(a, n) == s
  {
  }

  /** `FirstOne` looks at the first `n` cells only. */
  lemma FirstOneOfPrefix(a: string, b: string, n: nat)
    requires n <= |a| && n <= |b| && a[..n] == b[..n]
    ensures FirstOne(a, n) == FirstOne(b, n)
  {
    forall j | 0 <= j < n ensures a[j] == b[j] {
      assert a[..n][j] == b[..n][j];
    }
    FirstOneUnique(b, n, FirstOne(a, n));
  }

  /** The array after XOR-ing the polynomial in at `shift`. */
  function XorAt(a: string, shift: nat, poly: string): string
    requires shift + |poly| <= |a|
  {
    seq(|a|, j requires 0 <= j < |a| =>
      if shift <= j < shift + |poly| then Xor(poly[j - shift], a[j]) else a[j])
  }

  /** A pass at the first '1' clears it and leaves the cells before it alone,
      so the first '1' moves strictly to the right. */
  lemma XorAtAdvances(a: string, n: nat, poly: string)
    requires n <= |a| && poly != [] && poly[0] == '1'
    requires FirstOne(a, n) < n && FirstOne(a, n) + |poly| <= |a|
    ensures FirstOne(XorAt(a, FirstOne(a, n), poly), n) > FirstOne(a, n)
  {
    var s := FirstOne(a, n);
    var b := XorAt(a, s, poly);
    assert b[s] == '0';
    assert forall j :: 0 <= j < s ==> b[j] == a[j];
  }

  /**
   * The long division of crc.py:17-21 on the array `a` whose first `n` cells
   * are the input: while a '1' is left among them, XOR the polynomial in at
   * the first one. `None` when a pass would write past the end of the array
   * (Python raises IndexError there).
   */
  function Divide(a: string, n: nat, poly: string): (r: Option<string>)
    requires n <= |a| && poly != [] && poly[0] == '1'
    ensures |a| >= n + |poly| - 1 ==> r.Some?
    ensures r.Some? ==> |r.value| == |a|
    ensures r.Some? ==> forall j :: 0 <= j < n ==> r.value[j] != '1'
    ensures r.Some? ==> forall j :: 0 <= j < |a| && IsBit(a[j]) ==> IsBit(r.value[j])
    decreases n - FirstOne(a, n)
  {
    var s := FirstOne(a, n);
    if s == n then Some(a)
    else if s + |poly| > |a| then None
    else
      XorAtAdvances(a, n, poly);
      Divide(XorAt(a, s, poly), n, poly)
  }

  function Repeat(c: char, m: nat): (r: string)
    ensures |r| == m && forall i :: 0 <= i < m ==> r[i] == c
  {
    seq(m, _ => c)
  }

  /** `crcRemainder(input, pad)` (crc.py:9-23) with an already stripped polynomial. */
  function Remainder(input: string, pad: char, poly: string): (r: string)
    requires poly != [] && poly[0] == '1'
    ensures |r| == |poly| - 1
  {
    Divide(input + Repeat(pad, |poly| - 1), |input|, poly).value[|input|..]
  }

  /** `crcCheck(input, checkVal)` (crc.py:25-37) with an already stripped polynomial;
      `None` stands for the IndexError of a too short `checkVal`. */
  function Check(input: string, checkVal: string, poly: string): (r: Option<bool>)
    requires poly != [] && poly[0] == '1'
    ensures |checkVal| >= |poly| - 1 ==> r.Some?
  {
    match Divide(input + checkVal, |input|, poly)
    case None => None
    case Some(f) => Some('1' !in f[|input|..])
  }

  lemma XorCancels(p: char, x: char, y: char)
    requires IsBit(p) && IsBit(x) && IsBit(y)
    ensures Xor(Xor(p, x), Xor(p, y)) == Xor(x, y)
  {
  }

  /**
   * Division is linear in the cells after the input: two arrays that agree on
   * the input cells take the same shifts, and the bitwise difference of their
   * trailing cells survives the division unchanged.
   */
  lemma {:induction false} DivideLinear(a: string, b: string, n: nat, poly: string)
    requires |a| == |b| && n <= |a| && a[..n] == b[..n]
    requires poly != [] && poly[0] == '1' && IsBinary(poly)
    requires forall j :: n <= j < |a| ==> IsBit(a[j]) && IsBit(b[j])
    ensures Divide(a, n, poly).Some? == Divide(b, n, poly).Some?
    ensures Divide(a, n, poly).Some? ==> forall j :: n <= j < |a| ==>
      Xor(Divide(a, n, poly).value[j], Divide(b, n, poly).value[j]) == Xor(a[j], b[j])
    decreases n - FirstOne(a, n)
  {
    var s := FirstOne(a, n);
    FirstOneOfPrefix(a, b, n);
    if s < n && s + |poly| <= |a| {
      var a', b' := XorAt(a, s, poly), XorAt(b, s, poly);
      assert a'[..n] == b'[..n] by {
        forall j | 0 <= j < n ensures a'[j] == b'[j] {
          assert a[..n][j] == b[..n][j];
        }
      }
      forall j | n <= j < |a|
        ensures IsBit(a'[j]) && IsBit(b'[j]) && Xor(a'[j], b'[j]) == Xor(a[j], b[j])
      {
        if s <= j < s + |poly| {
          XorCancels(poly[j - s], a[j], b[j]);
        }
      }
      XorAtAdvances(a, n, poly);
      DivideLinear(a', b', n, poly);
    }
  }

  /**
   * Checking the remainder of a padded division divides the input followed by
   * that remainder. The input cells take the same shifts both times, so the
   * trailing cells change alike in both divisions, and each trailing cell of
   * the second division comes out as the pad digit.
   */
  lemma CheckedRemainder(input: string, pad: char, poly: string)
    requires poly != [] && poly[0] == '1' && IsBinary(poly) && IsBit(pad)
    ensures var n := |input|;
      var f := Divide(input + Repeat(pad, |poly| - 1), n, poly).value;
      var g := Divide(input + f[n..], n, poly);
      && f[n..] == Remainder(input, pad, poly)
      && g.Some? && |g.value| == |f|
      && (forall j :: n <= j < |f| ==> IsBit(f[j]) && IsBit(g.value[j]) && Xor(f[j], g.value[j]) == Xor(pad, f[j]))
      && (forall j :: n <= j < |f| ==> g.value[j] == pad)
  {
    var n, d := |input|, |poly| - 1;
    var a := input + Repeat(pad, d);
    var f := Divide(a, n, poly).value;
    var b := input + f[n..];
    assert a[..n] == input == b[..n];
    forall j | n <= j < |a| ensures IsBit(a[j]) && IsBit(b[j]) && a[j] == pad && b[j] == f[j] {
      assert IsBit(a[j]);
    }
    DivideLinear(a, b, n, poly);
  }

  /** The remainder computed with '0' padding passes the check (crc.py:39-45). */
  lemma RoundTrip(input: string, poly: string)
    requires poly != [] && poly[0] == '1' && IsBinary(poly)
    ensures Check(input, Remainder(input, '0', poly), poly) == Some(true)
  {
    CheckedRemainder(input, '0', poly);
    var n := |input|;
    var f := Divide(input + Repeat('0', |poly| - 1), n, poly).value;
    var g := Divide(input + f[n..], n, poly).value;
    assert '1' !in g[n..] by {
      forall i | 0 <= i < |g[n..]| ensures g[n..][i] != '1' {
        assert g[n..][i] == g[n + i];
        assert Xor(f[n + i], g[n + i]) == Xor('0', f[n + i]);
      }
    }
  }

  /** With '1' padding the check fails instead: every trailing cell of the
      checked division ends as '1'. */
  lemma OnePaddingFailsCheck(input: string, poly: string)
    requires poly != [] && poly[0] == '1' && IsBinary(poly) && |poly| >= 2
    ensures Check(input, Remainder(input, '1', poly), poly) == Some(false)
  {
    CheckedRemainder(input, '1', poly);
    var n := |input|;
    var f := Divide(input + Repeat('1', |poly| - 1), n, poly).value;
    var g := Divide(input + f[n..], n, poly).value;
    assert Xor(f[n], g[n]) == Xor('1', f[n]);
    assert g[n..][0] == '1';
  }

  /** The scan `inputPaddedArray.index('1')` limited to the input cells. */
  method FirstOneIn(a: array<char>, n: nat) returns (s: nat)
    requires n <= a.Length
    ensures s <= n
    ensures s < n ==> a[s] == '1'
    ensures forall j :: 0 <= j < s ==> a[j] != '1'
    ensures s == FirstOne(a[..], n)
  {
    s := 0;
    while s < n && a[s] != '1'
      invariant s <= n
      invariant forall j :: 0 <= j < s ==> a[j] != '1'
    {
      s := s + 1;
    }
    FirstOneUnique(a[..], n, s);
  }

  /** The loop of crc.py:17-21 run in place on `a`; false when it would index
      past the end of `a`. */
  method DivideInPlace(a: array<char>, n: nat, poly: string) returns (ok: bool)
    requires n <= a.Length && poly != [] && poly[0] == '1'
    modifies a
    ensures ok == Divide(old(a[..]), n, poly).Some?
    ensures ok ==> a[..] == Divide(old(a[..]), n, poly).value
  {
    var s := FirstOneIn(a, n);
    while s < n
      invariant s == FirstOne(a[..], n)
      invariant Divide(a[..], n, poly) == Divide(old(a[..]), n, poly)
      decreases n - s
    {
      if s + |poly| > a.Length {
        return false;
      }
      ghost var before := a[..];
      for i := 0 to |poly|
        invariant forall j :: 0 <= j < a.Length ==>
          a[j] == if s <= j < s + i then Xor(poly[j - s], before[j]) else before[j]
      {
        a[s + i] := Xor(poly[i], a[s + i]);
      }
      assert a[..] == XorAt(before, s, poly);
      XorAtAdvances(before, n, poly);
      s := FirstOneIn(a, n);
    }
    return true;
  }

  /** Copies a string into a fresh array: `list(s)`. */
  method ToArray(s: string) returns (a: array<char>)
    ensures fresh(a) && a[..] == s
  {
    a := new char[|s|](i requires 0 <= i < |s| => s[i]);
  }

  /** The body of `crcRemainder` after the polynomial is stripped (crc.py:14-23). */
  method DivideWithPadding(inputBin: string, pad: char, poly: string) returns (r: string)
    requires poly != [] && poly[0] == '1'
    ensures r == Remainder(inputBin, pad, poly)
  {
    var lenInput := |inputBin|;
    var initialPadding := Repeat(pad, |poly| - 1);
    var padded := inputBin + initialPadding;
    var a := ToArray(padded);
    var ok := DivideInPlace(a, lenInput, poly);
    assert a[..] == Divide(padded, lenInput, poly).value;
    r := a[lenInput..];
    assert r == a[..][lenInput..];
  }

  /** The body of `crcCheck` after the polynomial is stripped (crc.py:28-37). */
  method DivideWithCheckValue(inputBin: string, checkVal: string, poly: string) returns (r: Option<bool>)
    requires poly != [] && poly[0] == '1'
    ensures r == Check(inputBin, checkVal, poly)
  {
    var lenInput := |inputBin|;
    var padded := inputBin + checkVal;
    var a := ToArray(padded);
    var ok := DivideInPlace(a, lenInput, poly);
    if !ok {
      return None;
    }
    assert a[lenInput..] == Divide(padded, lenInput, poly).value[lenInput..];
    r := Some('1' !in a[lenInput..]);
  }

  class Crc {
    var polyBin: string

    ghost predicate Valid()
      reads this
    {
      IsBinary(polyBin) && '1' in polyBin
    }

    /** `CRC(polyBin)`; the polynomial must be binary with a set bit, or the
        division never ends. */
    constructor (polyBin: string)
      requires IsBinary(polyBin) && '1' in polyBin
      ensures Valid() && this.polyBin == polyBin
    {
      this.polyBin := polyBin;
    }

    /** crc.py:9-23 */
    method CrcRemainder(inputBin: string, pad: char) returns (r: string)
      requires Valid()
      modifies this
      ensures Valid() && polyBin == StripZeros(old(polyBin))
      ensures r == Remainder(inputBin, pad, polyBin)
      ensures |r| == |polyBin| - 1
    {
      StrippedPoly(polyBin);
      polyBin := StripZeros(polyBin);
      r := DivideWithPadding(inputBin, pad, polyBin);
    }

    /** crc.py:25-37: `Some(true)` exactly when the division leaves no '1' after
        the input; `None` when `checkVal` is too short for the division. */
    method CrcCheck(inputBin: string, checkVal: string) returns (r: Option<bool>)
      requires Valid()
      modifies this
      ensures Valid() && polyBin == StripZeros(old(polyBin))
      ensures r == Check(inputBin, checkVal, polyBin)
      ensures |checkVal| >= |polyBin| - 1 ==> r.Some?
    {
      StrippedPoly(polyBin);
      polyBin := StripZeros(polyBin);
      r := DivideWithCheckValue(inputBin, checkVal, polyBin);
    }
  }
}
