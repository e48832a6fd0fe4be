/** The PHP string primitives the storage classes rely on: `strcmp`,
    `str_pad` followed by a fixed-width `pack('a36')`, `rtrim($s, "\0")` and
    `trim`. */
module ByteString {
  import opened Types

  const NUL: Byte := 0

  /** Sign of `strcmp(a, b)`: byte-lexicographic, unsigned bytes, a proper
      prefix sorts first. */
  function Compare(a: Bytes, b: Bytes): (c: int)
    ensures -1 <= c <= 1
    ensures c == 0 <==> a == b
  {
    if |a| == 0 then (if |b| == 0 then 0 else -1)
    else if |b| == 0 then 1
    else if a[0] < b[0] then -1
    else if a[0] > b[0] then 1
    else
      var c := Compare(a[1..], b[1..]);
      assert a == [a[0]] + a[1..] && b == [b[0]] + b[1..];
      c
  }

  predicate Less(a: Bytes, b: Bytes) {
    Compare(a, b) < 0
  }

  lemma {:induction false} CompareAntisymmetric(a: Bytes, b: Bytes)
    ensures Compare(b, a) == -Compare(a, b)
    decreases |a|
  {
    if |a| > 0 && |b| > 0 && a[0] == b[0] {
      CompareAntisymmetric(a[1..], b[1..]);
    }
  }

  lemma {:induction false} LessTransitive(a: Bytes, b: Bytes, c: Bytes)
    requires Less(a, b) && Less(b, c)
    ensures Less(a, c)
    decreases |a|
  {
    if |a| > 0 && |b| > 0 && |c| > 0 && a[0] == b[0] && b[0] == c[0] {
      LessTransitive(a[1..], b[1..], c[1..]);
    }
  }

  /** Exactly one of a < b, a == b, b < a. */
  lemma {:induction false} Trichotomy(a: Bytes, b: Bytes)
    ensures Less(a, b) || a == b || Less(b, a)
    ensures !(Less(a, b) && Less(b, a))
  {
    CompareAntisymmetric(a, b);
  }

  /** `str_pad($s, n, $fill)` then a fixed-width write of exactly n units:
      shorter input is padded, longer input is cut. */
  function Fit<T>(s: seq<T>, n: nat, fill: T): (r: seq<T>)
    ensures |r| == n
    ensures forall i :: 0 <= i < n ==> r[i] == (if i < |s| then s[i] else fill)
  {
    if |s| >= n then s[..n] else s + seq(n - |s|, _ => fill)
  }

  /** `rtrim($s, "\0")`. */
  function RTrimNul(s: Bytes): (r: Bytes)
    ensures |r| <= |s| && r == s[..|r|]
    ensures |r| == 0 || r[|r| - 1] != NUL
    ensures forall i :: |r| <= i < |s| ==> s[i] == NUL
  {
    if |s| > 0 && s[|s| - 1] == NUL then RTrimNul(s[..|s| - 1]) else s
  }

  /** A key that survives the fixed-width NUL-padded field of width n
      unchanged: short enough and not ending in NUL. */
  predicate FitsField(s: Bytes, n: nat) {
    |s| <= n && (|s| == 0 || s[|s| - 1] != NUL)
  }

  /** Writing a fitting key into an n-byte field and trimming it back gives the key. */
  lemma {:induction false} PadThenTrim(s: Bytes, n: nat)
    requires FitsField(s, n)
    ensures RTrimNul(Fit(s, n, NUL)) == s
  {
    var f := Fit(s, n, NUL);
    var r := RTrimNul(f);
    if |s| > 0 {
      assert f[|s| - 1] != NUL;
    }
    if |r| > 0 {
      assert f[|r| - 1] == r[|r| - 1] != NUL;
    }
    assert r == f[..|s|] == s;
  }

  /** Trimming a full n-byte field and padding it again restores the field. */
  lemma {:induction false} TrimThenPad(f: Bytes, n: nat)
    requires |f| == n
    ensures Fit(RTrimNul(f), n, NUL) == f
  {
  }

  /** What comes back from a field of width n when `s` is written into it. */
  function StoredField(s: Bytes, n: nat): (r: Bytes)
    ensures FitsField(r, n)
    ensures FitsField(s, n) ==> r == s
  {
    if FitsField(s, n) then
      PadThenTrim(s, n);
      RTrimNul(Fit(s, n, NUL))
    else
      RTrimNul(Fit(s, n, NUL))
  }

  /** The bytes PHP's `trim` strips by default: " \t\n\r\0\x0B". */
  const WHITESPACE: set<Byte> := {32, 9, 10, 13, 0, 11}

  function TrimLeft(s: Bytes, cs: set<Byte>): (r: Bytes)
    ensures |r| <= |s| && r == s[|s| - |r|..]
    ensures |r| == 0 || r[0] !in cs
    ensures forall i :: 0 <= i < |s| - |r| ==> s[i] in cs
  {
    if |s| > 0 && s[0] in cs then TrimLeft(s[1..], cs) else s
  }

  function TrimRight(s: Bytes, cs: set<Byte>): (r: Bytes)
    ensures |r| <= |s| && r == s[..|r|]
    ensures |r| == 0 || r[|r| - 1] !in cs
    ensures forall i :: |r| <= i < |s| ==> s[i] in cs
  {
    if |s| > 0 && s[|s| - 1] in cs then TrimRight(s[..|s| - 1], cs) else s
  }

  /** r occurs in s starting at position i. */
  predicate InfixAt(r: Bytes, s: Bytes, i: int) {
    0 <= i <= |s| - |r| && r == s[i..i + |r|]
  }

  /** r is s at position i, and every byte of s before and after it is in cs. */
  predicate StrippedAt(r: Bytes, s: Bytes, cs: set<Byte>, i: int) {
    && InfixAt(r, s, i)
    && (forall j :: 0 <= j < i ==> s[j] in cs)
    && (forall j :: i + |r| <= j < |s| ==> s[j] in cs)
  }

  /** `trim($s, $cs)`: strip bytes of cs from both ends. What is left neither
      starts nor ends with a byte of cs, and only bytes of cs were removed. */
  function Trim(s: Bytes, cs: set<Byte>): (r: Bytes)
    ensures |r| == 0 || (r[0] !in cs && r[|r| - 1] !in cs)
    ensures exists i :: StrippedAt(r, s, cs, i)
  {
    TrimIsStripped(s, cs);
    TrimRight(TrimLeft(s, cs), cs)
  }

  lemma {:induction false} TrimIsStripped(s: Bytes, cs: set<Byte>)
    ensures exists i :: StrippedAt(TrimRight(TrimLeft(s, cs), cs), s, cs, i)
  {
    var l := TrimLeft(s, cs);
    StrippedFrom(s, l, TrimRight(l, cs), cs);
  }

  /** Stripping a prefix of cs bytes and then a suffix of cs bytes leaves
      an infix with only cs bytes around it. */
  lemma {:induction false} StrippedFrom(s: Bytes, l: Bytes, r: Bytes, cs: set<Byte>)
    requires |l| <= |s| && l == s[|s| - |l|..] && forall j :: 0 <= j < |s| - |l| ==> s[j] in cs
    requires |r| <= |l| && r == l[..|r|] && forall j :: |r| <= j < |l| ==> l[j] in cs
    ensures StrippedAt(r, s, cs, |s| - |l|)
  {
    var i := |s| - |l|;
    assert r == s[i..i + |r|];
    forall j | i + |r| <= j < |s|
      ensures s[j] in cs
    {
      assert s[j] == l[j - i];
    }
  }

  /** Position of the first occurrence of b, as `explode($b, $s, 2)` splits. */
  function IndexOf(s: Bytes, b: Byte): (r: Option<nat>)
    ensures r.None? <==> b !in s
    ensures r.Some? ==> r.value < |s| && s[r.value] == b && b !in s[..r.value]
  {
    if |s| == 0 then None
    else if s[0] == b then Some(0)
    else match IndexOf(s[1..], b)
      case None => None
      case Some(i) =>
        assert s[..i + 1] == [s[0]] + s[1..][..i];
        Some(i + 1)
  }
}
