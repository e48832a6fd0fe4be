/** Scored id lists as the engine handles them: PHP arrays of id => similarity
    that `asort`/`arsort` order (both are stable), and the best/worst element
    `SplPriorityQueue::extract` and `array_key_first` after `asort` pick. */
module Ranking {
  import opened Types

  datatype Scored = Scored(id: int, score: real)

  function Ids(s: seq<Scored>): (r: seq<int>)
    ensures |r| == |s|
    ensures forall i :: 0 <= i < |s| ==> r[i] == s[i].id
  {
    seq(|s|, i requires 0 <= i < |s| => s[i].id)
  }

  predicate DistinctIds(s: seq<Scored>) {
    forall i, j :: 0 <= i < j < |s| ==> s[i].id != s[j].id
  }

  predicate SortedDesc(s: seq<Scored>) {
    forall i, j :: 0 <= i < j < |s| ==> s[i].score >= s[j].score
  }

  // ---------------------------------------------------------------------
  // Stable sort, best first (`arsort`)

  /** Put `x` in front of the first element it is at least as good as. */
  function InsertDesc(x: Scored, s: seq<Scored>): (r: seq<Scored>)
    ensures |r| == |s| + 1
    ensures multiset(r) == multiset(s) + multiset{x}
  {
    if |s| == 0 || x.score >= s[0].score then [x] + s
    else
      var t := InsertDesc(x, s[1..]);
      assert s == [s[0]] + s[1..];
      [s[0]] + t
  }

  function SortDesc(s: seq<Scored>): (r: seq<Scored>)
    ensures |r| == |s|
    ensures multiset(r) == multiset(s)
  {
    if |s| == 0 then []
    else
      assert s == [s[0]] + s[1..];
      InsertDesc(s[0], SortDesc(s[1..]))
  }

  lemma {:induction false} InsertDescSorted(x: Scored, s: seq<Scored>)
    requires SortedDesc(s)
    ensures SortedDesc(InsertDesc(x, s))
  {
    if |s| > 0 && x.score < s[0].score {
      InsertDescSorted(x, s[1..]);
      var t := InsertDesc(x, s[1..]);
      forall y | y in t
        ensures y.score <= s[0].score
      {
        assert y in multiset(t);
        if y != x {
          assert y in multiset(s[1..]);
          var j :| 0 <= j < |s[1..]| && s[1..][j] == y;
          assert s[j + 1] == y;
        }
      }
      forall j | 0 <= j < |t|
        ensures t[j].score <= s[0].score
      {
        assert t[j] in t;
      }
    }
  }

  /** The sort's result is ordered best first. */
  lemma {:induction false} SortDescSorted(s: seq<Scored>)
    ensures SortedDesc(SortDesc(s))
  {
    if |s| > 0 {
      SortDescSorted(s[1..]);
      InsertDescSorted(s[0], SortDesc(s[1..]));
    }
  }

  lemma {:induction false} InsertDescDistinct(x: Scored, s: seq<Scored>)
    requires DistinctIds(s)
    requires forall y :: y in s ==> y.id != x.id
    ensures DistinctIds(InsertDesc(x, s))
  {
    if |s| > 0 && x.score < s[0].score {
      InsertDescDistinct(x, s[1..]);
      var t := InsertDesc(x, s[1..]);
      forall j | 0 <= j < |t|
        ensures t[j].id != s[0].id
      {
        assert t[j] in multiset(t);
        if t[j] != x {
          assert t[j] in multiset(s[1..]);
          var i :| 0 <= i < |s[1..]| && s[1..][i] == t[j];
          assert s[i + 1] == t[j];
        }
      }
    }
  }

  /** Sorting keeps ids distinct. */
  lemma {:induction false} SortDescDistinct(s: seq<Scored>)
    requires DistinctIds(s)
    ensures DistinctIds(SortDesc(s))
  {
    if |s| > 0 {
      SortDescDistinct(s[1..]);
      var t := SortDesc(s[1..]);
      forall y | y in t
        ensures y.id != s[0].id
      {
        assert y in multiset(s[1..]);
        var i :| 0 <= i < |s[1..]| && s[1..][i] == y;
        assert s[i + 1] == y;
      }
      InsertDescDistinct(s[0], t);
    }
  }

  /** Sorting neither adds nor drops elements. */
  lemma {:induction false} SortDescSameElements(s: seq<Scored>)
    ensures forall x :: x in SortDesc(s) <==> x in s
  {
    forall x
      ensures x in SortDesc(s) <==> x in s
    {
      assert x in SortDesc(s) <==> x in multiset(SortDesc(s));
      assert x in s <==> x in multiset(s);
    }
  }

  /** The sort puts the best element first. */
  lemma {:induction false} SortDescHead(s: seq<Scored>)
    requires |s| > 0
    ensures SortDesc(s)[0].score == s[BestAt(s)].score
  {
    var t := SortDesc(s);
    var b := s[BestAt(s)];
    SortDescSorted(s);
    assert b in multiset(s);
    assert b in multiset(t);
    var p :| 0 <= p < |t| && t[p] == b;
    assert t[0].score >= t[p].score;
    assert t[0] in multiset(t);
    assert t[0] in multiset(s);
    var r :| 0 <= r < |s| && s[r] == t[0];
    assert s[r].score <= b.score;
  }

  // ---------------------------------------------------------------------
  // Best and worst elements

  /** The first element of highest score: what the max-heap of candidates
      hands out (its order among equal priorities is not modelled). */
  function BestAt(s: seq<Scored>): (i: nat)
    requires |s| > 0
    ensures i < |s|
    ensures forall j :: 0 <= j < |s| ==> s[j].score <= s[i].score
  {
    if |s| == 1 then 0
    else
      var k := BestAt(s[1..]);
      if s[0].score >= s[1 + k].score then 0 else 1 + k
  }

  /** The first element of lowest score: `array_key_first` after a stable
      `asort`. */
  function WorstAt(s: seq<Scored>): (i: nat)
    requires |s| > 0
    ensures i < |s|
    ensures forall j :: 0 <= j < |s| ==> s[i].score <= s[j].score
    ensures forall j :: 0 <= j < i ==> s[j].score > s[i].score
  {
    if |s| == 1 then 0
    else
      var k := WorstAt(s[1..]);
      if s[0].score <= s[1 + k].score then 0 else 1 + k
  }

  /** The list without its i-th element. */
  function RemoveAt(s: seq<Scored>, i: nat): (r: seq<Scored>)
    requires i < |s|
    ensures |r| == |s| - 1
    ensures forall j :: 0 <= j < |r| ==> r[j] == if j < i then s[j] else s[j + 1]
  {
    s[..i] + s[i + 1..]
  }

  /** Removing keeps every other element and adds none. */
  lemma {:induction false} RemoveAtElements(s: seq<Scored>, i: nat)
    requires i < |s|
    ensures forall x :: x in RemoveAt(s, i) ==> x in s
    ensures forall j :: 0 <= j < |s| && j != i ==> s[j] in RemoveAt(s, i)
    ensures multiset(RemoveAt(s, i)) + multiset{s[i]} == multiset(s)
  {
    assert s == s[..i] + [s[i]] + s[i + 1..];
    var r := RemoveAt(s, i);
    forall j | 0 <= j < |s| && j != i
      ensures s[j] in r
    {
      assert r[if j < i then j else j - 1] == s[j];
    }
  }

  /** The best score of a non-empty list. */
  function Top(s: seq<Scored>): real
    requires |s| > 0
  {
    s[BestAt(s)].score
  }

  /** Adding an element never lowers the best score. */
  lemma {:induction false} TopAppend(s: seq<Scored>, x: Scored)
    requires |s| > 0
    ensures Top(s + [x]) >= Top(s)
  {
    assert (s + [x])[BestAt(s)] == s[BestAt(s)];
  }

  /** Dropping the worst of two or more elements never lowers the best
      score: either the best stays, or every element scored the same. */
  lemma {:induction false} TopDropWorst(s: seq<Scored>)
    requires |s| >= 2
    ensures Top(RemoveAt(s, WorstAt(s))) >= Top(s)
  {
    var i := WorstAt(s);
    var r := RemoveAt(s, i);
    var bi := BestAt(s);
    var rb := BestAt(r);
    if bi != i {
      var j := if bi < i then bi else bi - 1;
      assert r[j] == s[bi];
      assert r[rb].score >= r[j].score;
    } else {
      var j := if rb < i then rb else rb + 1;
      assert r[rb] == s[j];
      assert s[j].score >= s[i].score;
    }
  }

  /** Removing an element keeps the others' ids distinct. */
  lemma {:induction false} RemoveAtDistinct(s: seq<Scored>, i: nat)
    requires i < |s| && DistinctIds(s)
    ensures DistinctIds(RemoveAt(s, i))
  {
    var r := RemoveAt(s, i);
    forall a, b | 0 <= a < b < |r|
      ensures r[a].id != r[b].id
    {
      var a' := if a < i then a else a + 1;
      var b' := if b < i then b else b + 1;
      assert r[a] == s[a'] && r[b] == s[b'];
    }
  }

  /** W after a new element: when it holds more than ef elements, its worst
      one goes (`asort`, `array_key_first`, `unset`). */
  function Evict(w: seq<Scored>, ef: int): (r: seq<Scored>)
    requires |w| >= 2
    ensures |r| == if |w| > ef then |w| - 1 else |w|
    ensures |r| > 0
    ensures forall y :: y in r ==> y in w
    ensures DistinctIds(w) ==> DistinctIds(r)
    ensures Top(r) >= Top(w)
  {
    if |w| > ef then
      TopDropWorst(w);
      RemoveAtElements(w, WorstAt(w));
      if DistinctIds(w) then
        RemoveAtDistinct(w, WorstAt(w));
        RemoveAt(w, WorstAt(w))
      else RemoveAt(w, WorstAt(w))
    else w
  }

  /** The loop that copies the sorted list out and stops once `$count >= $k`:
      with no limit every element, otherwise at least one and at most k. */
  function Limit(n: nat, k: Option<int>): (m: nat)
    ensures m <= n
    ensures k.None? ==> m == n
    ensures k.Some? ==> m == Min(n, Max(k.value, 1))
  {
    match k
    case None => n
    case Some(k) => if n <= k || n <= 1 then n else Max(k, 1)
  }

  // ---------------------------------------------------------------------
  // Pruning an over-full neighbour list

  /** Keep the first occurrence of every id (`$sorted[$linkId] = …` on a PHP
      array keeps the key at its first position). */
  function Dedup(s: seq<int>): (r: seq<int>)
    ensures forall x :: x in r <==> x in s
    ensures forall i, j :: 0 <= i < j < |r| ==> r[i] != r[j]
    ensures |r| <= |s|
  {
    if |s| == 0 then []
    else
      var t := Dedup(s[..|s| - 1]);
      assert s == s[..|s| - 1] + [s[|s| - 1]];
      if s[|s| - 1] in t then t else t + [s[|s| - 1]]
  }

  /** The best `n` of the scored ids, best first. */
  function TopIds(s: seq<Scored>, n: nat): (r: seq<int>)
    ensures |r| == Min(|s|, n)
  {
    Ids(SortDesc(s))[..Min(|s|, n)]
  }

  /** TopIds keeps only ids it was given, keeps them distinct, and keeps the
      best: every kept element scores at least as high as every dropped one. */
  lemma {:induction false} TopIdsBest(s: seq<Scored>, n: nat)
    requires DistinctIds(s)
    ensures forall x :: x in TopIds(s, n) ==> x in Ids(s)
    ensures forall i, j :: 0 <= i < j < |TopIds(s, n)| ==> TopIds(s, n)[i] != TopIds(s, n)[j]
    ensures forall x, y :: x in s && y in s && x.id in TopIds(s, n) && y.id !in TopIds(s, n) ==>
      x.score >= y.score
  {
    var t := SortDesc(s);
    var m := Min(|s|, n);
    SortDescSorted(s);
    SortDescDistinct(s);
    TopIdsFromInput(s, n);
    SortedKeepsBest(t, m);
    assert forall x :: x in s <==> x in t by {
      SortDescSameElements(s);
    }
  }

  lemma {:induction false} TopIdsFromInput(s: seq<Scored>, n: nat)
    ensures forall x :: x in TopIds(s, n) ==> x in Ids(s)
  {
    var t := SortDesc(s);
    forall x | x in TopIds(s, n)
      ensures x in Ids(s)
    {
      var i :| 0 <= i < Min(|s|, n) && Ids(t)[i] == x;
      assert t[i] in multiset(t);
      assert t[i] in multiset(s);
      var j :| 0 <= j < |s| && s[j] == t[i];
      assert Ids(s)[j] == x;
    }
  }

  /** In a sorted list with distinct ids, the first m ids are distinct and
      every element among them scores at least as high as every element
      after them. */
  lemma {:induction false} SortedKeepsBest(t: seq<Scored>, m: nat)
    requires SortedDesc(t) && DistinctIds(t) && m <= |t|
    ensures forall i, j :: 0 <= i < j < m ==> Ids(t)[i] != Ids(t)[j]
    ensures forall x, y :: x in t && y in t && x.id in Ids(t)[..m] && y.id !in Ids(t)[..m] ==>
      x.score >= y.score
  {
    var kept := Ids(t)[..m];
    forall x, y | x in t && y in t && x.id in kept && y.id !in kept
      ensures x.score >= y.score
    {
      var p :| 0 <= p < |t| && t[p] == x;
      var i :| 0 <= i < m && kept[i] == x.id;
      assert t[i].id == t[p].id;
      var q :| 0 <= q < |t| && t[q] == y;
    }
  }
}
