/** meta.bin (src/Storage/Binary/MetaFile.php): the external-id to
    internal-id index, an unbalanced binary search tree stored one node per
    48-byte row. A row holds the key NUL-padded to 36 bytes, the value, and
    the row numbers of the left and right children (-1 for none). Row 0 is
    the root; keys are ordered by `strcmp`.

    Every row `insert` writes is appended after its parent, so child links
    point forward; `WellFormed` states that, and it is what makes the three
    descents (`find`, `insert`, `update`) terminate. */
module MetaFile {
  import opened Types
  import opened ByteString
  import opened Config

  const NO_CHILD: int := -1

  /** Width of the key field; the value sits right after it. */
  const KEY_SIZE: nat := 36

  datatype Row = Row(key: Bytes, value: int, left: int, right: int)

  datatype Side = Left | Right

  type Meta = seq<Row>

  function Link(r: Row, side: Side): int {
    match side
    case Left => r.left
    case Right => r.right
  }

  predicate LinkOk(rows: Meta, i: nat, link: int) {
    link == NO_CHILD || i < link < |rows|
  }

  /** Every child link is -1 or points to a later row. */
  predicate WellFormed(rows: Meta) {
    forall i :: 0 <= i < |rows| ==> LinkOk(rows, i, rows[i].left) && LinkOk(rows, i, rows[i].right)
  }

  /** The key as it reads back from its 36-byte NUL-padded field. */
  function StoredKey(k: Bytes): (r: Bytes)
    ensures FitsField(k, KEY_SIZE) ==> r == k
  {
    StoredField(k, KEY_SIZE)
  }

  /** Where a descent from the root for a key ends: at the row holding the
      key, or at the empty child slot where the key would hang. */
  datatype Outcome = Found(at: nat) | Missing(parent: nat, side: Side)

  function SideOf(c: int): Side {
    if c < 0 then Left else Right
  }

  /** The loop shared by `find`, `insert` and `update`: compare the key with
      the current row's key using `strcmp` and go left when smaller, right
      when larger. */
  function Descend(rows: Meta, k: Bytes, i: nat): (o: Outcome)
    requires WellFormed(rows) && i < |rows|
    ensures o.Found? ==> i <= o.at < |rows| && rows[o.at].key == k
    ensures o.Missing? ==>
      && i <= o.parent < |rows|
      && rows[o.parent].key != k
      && Link(rows[o.parent], o.side) == NO_CHILD
      && (o.side == Left <==> Less(k, rows[o.parent].key))
    decreases |rows| - i
  {
    var c := Compare(k, rows[i].key);
    if c == 0 then Found(i)
    else
      var next := Link(rows[i], SideOf(c));
      if next == NO_CHILD then Missing(i, SideOf(c)) else Descend(rows, k, next)
  }

  /** `find`: null on an empty file; otherwise the value of the row holding
      the key, or null when the descent falls off the tree. */
  function Find(rows: Meta, k: Bytes): (r: Option<int>)
    requires WellFormed(rows)
    ensures |rows| == 0 ==> r.None?
    ensures r.Some? ==> exists i :: 0 <= i < |rows| && rows[i].key == k && rows[i].value == r.value
  {
    if |rows| == 0 then None
    else match Descend(rows, k, 0)
      case Found(i) => Some(rows[i].value)
      case Missing(_, _) => None
  }

  /** `updateLink`: rewrite one child link of one row (bytes 40 or 44). */
  function UpdateLink(rows: Meta, i: nat, side: Side, child: int): (r: Meta)
    requires i < |rows|
    ensures |r| == |rows|
    ensures forall j :: 0 <= j < |rows| ==> r[j].key == rows[j].key && r[j].value == rows[j].value
    ensures forall j, s :: 0 <= j < |rows| && (j != i || s != side) ==> Link(r[j], s) == Link(rows[j], s)
    ensures Link(r[i], side) == child
  {
    match side
    case Left => rows[i := rows[i].(left := child)]
    case Right => rows[i := rows[i].(right := child)]
  }

  /** `insert`: append a childless row for the key, then descend from the
      root and hang it in the empty slot where the descent ends. When the
      key is already present the row stays unlinked. */
  function Insert(rows: Meta, k: Bytes, v: int): (r: Meta)
    requires WellFormed(rows)
    ensures WellFormed(r)
    ensures |r| == |rows| + 1 && r[|rows|] == Row(StoredKey(k), v, NO_CHILD, NO_CHILD)
    ensures forall j :: 0 <= j < |rows| ==> r[j].key == rows[j].key && r[j].value == rows[j].value
  {
    var row := Row(StoredKey(k), v, NO_CHILD, NO_CHILD);
    if |rows| == 0 then [row]
    else match Descend(rows, k, 0)
      case Found(_) => rows + [row]
      case Missing(p, side) => UpdateLink(rows, p, side, |rows|) + [row]
  }

  /** `update`: descend as `find` does and, when the key is there, rewrite
      that row's value (byte 36); report whether it was found. */
  function Update(rows: Meta, k: Bytes, v: int): (r: (Meta, bool))
    requires WellFormed(rows)
    ensures WellFormed(r.0)
    ensures r.1 <==> Find(rows, k).Some?
    ensures |r.0| == |rows|
    ensures forall j :: 0 <= j < |rows| ==>
      r.0[j].key == rows[j].key && r.0[j].left == rows[j].left && r.0[j].right == rows[j].right
    ensures !r.1 ==> r.0 == rows
    ensures forall j :: 0 <= j < |rows| ==> r.0[j].value == rows[j].value || r.0[j].value == v
  {
    if |rows| == 0 then (rows, false)
    else match Descend(rows, k, 0)
      case Found(i) => (rows[i := rows[i].(value := v)], true)
      case Missing(_, _) => (rows, false)
  }

  // ---------------------------------------------------------------------
  // Frame lemmas

  /** Two tables with the same keys and links from row i on descend alike. */
  lemma {:induction false} DescendFrame(a: Meta, b: Meta, k: Bytes, i: nat)
    requires WellFormed(a) && WellFormed(b) && i < |a| <= |b|
    requires forall j :: i <= j < |a| ==>
      a[j].key == b[j].key && a[j].left == b[j].left && a[j].right == b[j].right
    ensures Descend(a, k, i) == Descend(b, k, i)
    decreases |a| - i
  {
    var c := Compare(k, a[i].key);
    if c != 0 {
      var next := Link(a[i], SideOf(c));
      assert next == Link(b[i], SideOf(c));
      if next != NO_CHILD {
        DescendFrame(a, b, k, next);
      }
    }
  }

  /** Filling an empty slot (p, side) with a new last row changes a descent
      only where it used to end at that slot: it now continues into the new
      row. */
  lemma {:induction false} FillSlot(rows: Meta, p: nat, side: Side, row: Row, k: Bytes, i: nat)
    requires WellFormed(rows) && p < |rows| && i < |rows|
    requires Link(rows[p], side) == NO_CHILD
    requires row.left == NO_CHILD && row.right == NO_CHILD
    ensures WellFormed(UpdateLink(rows, p, side, |rows|) + [row])
    ensures var r := UpdateLink(rows, p, side, |rows|) + [row];
      if Descend(rows, k, i) == Missing(p, side) then Descend(r, k, i) == Descend(r, k, |rows|)
      else Descend(r, k, i) == Descend(rows, k, i)
    decreases |rows| - i
  {
    var r := UpdateLink(rows, p, side, |rows|) + [row];
    assert WellFormed(r) by {
      forall j | 0 <= j < |r|
        ensures LinkOk(r, j, r[j].left) && LinkOk(r, j, r[j].right)
      {
        if j < |rows| {
          assert Link(r[j], Left) == Link(rows[j], Left) || (j == p && side == Left);
          assert Link(r[j], Right) == Link(rows[j], Right) || (j == p && side == Right);
        }
      }
    }
    var c := Compare(k, rows[i].key);
    assert r[i].key == rows[i].key;
    if c != 0 {
      var s := SideOf(c);
      var next := Link(rows[i], s);
      if next != NO_CHILD {
        assert Link(r[i], s) == next;
        FillSlot(rows, p, side, row, k, next);
      } else if i != p || s != side {
        assert Link(r[i], s) == NO_CHILD;
      }
    }
  }

  // ---------------------------------------------------------------------
  // find / insert / update

  /** After inserting a key that was absent, `find` gives its value, exactly
      when the key survives the 36-byte field (at most 36 bytes and no
      trailing NUL); otherwise `find` still misses it. */
  lemma {:induction false} InsertThenFind(rows: Meta, k: Bytes, v: int)
    requires WellFormed(rows) && Find(rows, k).None?
    ensures Find(Insert(rows, k, v), k) == if StoredKey(k) == k then Some(v) else None
    ensures FitsField(k, KEY_SIZE) ==> Find(Insert(rows, k, v), k) == Some(v)
  {
    var row := Row(StoredKey(k), v, NO_CHILD, NO_CHILD);
    if |rows| > 0 {
      match Descend(rows, k, 0)
      case Missing(p, side) =>
        FillSlot(rows, p, side, row, k, 0);
    }
  }

  /** Inserting a key leaves `find` of every other key as it was. */
  lemma {:induction false} InsertKeepsOthers(rows: Meta, k: Bytes, v: int, other: Bytes)
    requires WellFormed(rows) && other != StoredKey(k)
    ensures Find(Insert(rows, k, v), other) == Find(rows, other)
  {
    var row := Row(StoredKey(k), v, NO_CHILD, NO_CHILD);
    var r := Insert(rows, k, v);
    if |rows| > 0 {
      match Descend(rows, k, 0)
      case Found(_) =>
        DescendFrame(rows, r, other, 0);
      case Missing(p, side) =>
        FillSlot(rows, p, side, row, other, 0);
    }
  }

  /** Inserting a key that is already present appends an unreachable row:
      every `find` result stays the same and no existing row changes. */
  lemma {:induction false} InsertExisting(rows: Meta, k: Bytes, v: int, other: Bytes)
    requires WellFormed(rows) && Find(rows, k).Some?
    ensures Insert(rows, k, v)[..|rows|] == rows
    ensures Find(Insert(rows, k, v), other) == Find(rows, other)
  {
    var r := Insert(rows, k, v);
    assert r == rows + [r[|rows|]];
    DescendFrame(rows, r, other, 0);
  }

  /** A new row goes at the old row count, hung in exactly one slot that was
      empty; every other link stays. */
  lemma {:induction false} InsertLinksOneSlot(rows: Meta, k: Bytes, v: int)
    requires WellFormed(rows) && |rows| > 0 && Find(rows, k).None?
    ensures exists p, side ::
      && 0 <= p < |rows| && Link(rows[p], side) == NO_CHILD
      && Link(Insert(rows, k, v)[p], side) == |rows|
      && (forall j, s :: 0 <= j < |rows| && (j != p || s != side) ==>
            Link(Insert(rows, k, v)[j], s) == Link(rows[j], s))
  {
    match Descend(rows, k, 0)
    case Missing(p, side) =>
      var r := Insert(rows, k, v);
      assert Link(r[p], side) == |rows|;
  }

  /** `update` reports whether the key is present; when it is, `find` then
      gives the new value, and `find` of every other key is unchanged. */
  lemma {:induction false} UpdateThenFind(rows: Meta, k: Bytes, v: int, other: Bytes)
    requires WellFormed(rows)
    ensures var (r, ok) := Update(rows, k, v);
      && (ok ==> Find(r, k) == Some(v))
      && (other != k ==> Find(r, other) == Find(rows, other))
  {
    var (r, ok) := Update(rows, k, v);
    if |rows| > 0 {
      DescendFrame(rows, r, k, 0);
      DescendFrame(rows, r, other, 0);
    }
  }

  // ---------------------------------------------------------------------
  // Binary search tree order

  /** s lies strictly between the optional bounds. */
  predicate Between(s: Bytes, lo: Option<Bytes>, hi: Option<Bytes>) {
    (lo.None? || Less(lo.value, s)) && (hi.None? || Less(s, hi.value))
  }

  /** The subtree at row i has its keys strictly between lo and hi, smaller
      keys on the left and larger on the right. */
  predicate OrderedFrom(rows: Meta, i: nat, lo: Option<Bytes>, hi: Option<Bytes>)
    requires WellFormed(rows) && i < |rows|
    decreases |rows| - i
  {
    var n := rows[i];
    && Between(n.key, lo, hi)
    && (n.left == NO_CHILD || OrderedFrom(rows, n.left, lo, Some(n.key)))
    && (n.right == NO_CHILD || OrderedFrom(rows, n.right, Some(n.key), hi))
  }

  predicate Ordered(rows: Meta)
    requires WellFormed(rows)
  {
    |rows| == 0 || OrderedFrom(rows, 0, None, None)
  }

  /** Narrower bounds hold a fortiori. */
  lemma {:induction false} BetweenWiden(s: Bytes, lo: Option<Bytes>, mid: Bytes, hi: Option<Bytes>)
    requires Between(s, lo, Some(mid)) && Between(mid, lo, hi)
    ensures Between(s, lo, hi)
  {
    if hi.Some? {
      LessTransitive(s, mid, hi.value);
    }
  }

  lemma {:induction false} BetweenWidenLow(s: Bytes, lo: Option<Bytes>, mid: Bytes, hi: Option<Bytes>)
    requires Between(s, Some(mid), hi) && Between(mid, lo, hi)
    ensures Between(s, lo, hi)
  {
    if lo.Some? {
      LessTransitive(lo.value, mid, s);
    }
  }

  /** A descent through an ordered subtree ends at a row inside its bounds. */
  lemma {:induction false} DescendBounds(rows: Meta, k: Bytes, i: nat, lo: Option<Bytes>, hi: Option<Bytes>)
    requires WellFormed(rows) && i < |rows| && OrderedFrom(rows, i, lo, hi)
    requires Descend(rows, k, i).Missing?
    ensures Between(rows[Descend(rows, k, i).parent].key, lo, hi)
    decreases |rows| - i
  {
    var n := rows[i];
    var c := Compare(k, n.key);
    var next := Link(n, SideOf(c));
    if next != NO_CHILD {
      if SideOf(c) == Left {
        DescendBounds(rows, k, next, lo, Some(n.key));
        BetweenWiden(rows[Descend(rows, k, i).parent].key, lo, n.key, hi);
      } else {
        DescendBounds(rows, k, next, Some(n.key), hi);
        BetweenWidenLow(rows[Descend(rows, k, i).parent].key, lo, n.key, hi);
      }
    }
  }

  /** Changing row p (links only) keeps an ordered subtree whose bounds
      exclude row p's key ordered: p cannot be inside it. */
  lemma {:induction false} OrderedFrame(rows: Meta, r: Meta, p: nat, i: nat, lo: Option<Bytes>, hi: Option<Bytes>)
    requires WellFormed(rows) && WellFormed(r) && i < |rows| <= |r| && p < |rows|
    requires forall j :: 0 <= j < |rows| && j != p ==> r[j] == rows[j]
    requires OrderedFrom(rows, i, lo, hi) && !Between(rows[p].key, lo, hi)
    ensures OrderedFrom(r, i, lo, hi)
    decreases |rows| - i
  {
    var n := rows[i];
    assert i != p;
    assert r[i] == n;
    if n.left != NO_CHILD {
      if Between(rows[p].key, lo, Some(n.key)) {
        BetweenWiden(rows[p].key, lo, n.key, hi);
      }
      OrderedFrame(rows, r, p, n.left, lo, Some(n.key));
    }
    if n.right != NO_CHILD {
      if Between(rows[p].key, Some(n.key), hi) {
        BetweenWidenLow(rows[p].key, lo, n.key, hi);
      }
      OrderedFrame(rows, r, p, n.right, Some(n.key), hi);
    }
  }

  /** The tree `insert` builds when the descent from row i falls off it. */
  function InsertBelow(rows: Meta, k: Bytes, v: int, i: nat): Meta
    requires WellFormed(rows) && i < |rows| && Descend(rows, k, i).Missing?
  {
    var o := Descend(rows, k, i);
    UpdateLink(rows, o.parent, o.side, |rows|) + [Row(k, v, NO_CHILD, NO_CHILD)]
  }

  /** Inserting below row i keeps the tree well formed and the subtree at i
      ordered within (lo, hi). */
  predicate InsertedOrdered(rows: Meta, k: Bytes, v: int, i: nat, lo: Option<Bytes>, hi: Option<Bytes>)
    requires WellFormed(rows) && i < |rows| && Descend(rows, k, i).Missing?
  {
    var r := InsertBelow(rows, k, v, i);
    WellFormed(r) && i < |r| && OrderedFrom(r, i, lo, hi)
  }

  lemma {:induction false} InsertOrderedFrom(rows: Meta, k: Bytes, v: int, i: nat, lo: Option<Bytes>, hi: Option<Bytes>)
    requires WellFormed(rows) && i < |rows| && OrderedFrom(rows, i, lo, hi)
    requires Between(k, lo, hi) && StoredKey(k) == k
    requires Descend(rows, k, i).Missing?
    ensures var o := Descend(rows, k, i);
      var r := UpdateLink(rows, o.parent, o.side, |rows|) + [Row(k, v, NO_CHILD, NO_CHILD)];
      WellFormed(r) && OrderedFrom(r, i, lo, hi)
    decreases |rows| - i
  {
    var n := rows[i];
    if Less(k, n.key) {
      if n.left != NO_CHILD {
        InsertOrderedFrom(rows, k, v, n.left, lo, Some(n.key));
      }
      InsertStepLeft(rows, k, v, i, lo, hi);
    } else {
      if n.right != NO_CHILD {
        CompareAntisymmetric(k, n.key);
        InsertOrderedFrom(rows, k, v, n.right, Some(n.key), hi);
      }
      InsertStepRight(rows, k, v, i, lo, hi);
    }
  }

  /** One step of InsertOrderedFrom when the key goes left of row i: the new
      row lands in the left subtree and the right subtree is untouched. */
  lemma {:induction false} InsertStepLeft(rows: Meta, k: Bytes, v: int, i: nat, lo: Option<Bytes>, hi: Option<Bytes>)
    requires WellFormed(rows) && i < |rows| && OrderedFrom(rows, i, lo, hi)
    requires Between(k, lo, hi) && StoredKey(k) == k
    requires Descend(rows, k, i).Missing? && Less(k, rows[i].key)
    requires rows[i].left != NO_CHILD ==> InsertedOrdered(rows, k, v, rows[i].left, lo, Some(rows[i].key))
    ensures InsertedOrdered(rows, k, v, i, lo, hi)
  {
    var o := Descend(rows, k, i);
    var row := Row(k, v, NO_CHILD, NO_CHILD);
    var r := UpdateLink(rows, o.parent, o.side, |rows|) + [row];
    FillSlot(rows, o.parent, o.side, row, k, i);
    var n := rows[i];
    var next := n.left;
    assert r[i].key == n.key;
    assert r[i].left == NO_CHILD || OrderedFrom(r, r[i].left, lo, Some(n.key)) by {
      CompareAntisymmetric(k, n.key);
      if next == NO_CHILD {
        assert r[i].left == |rows|;
        assert OrderedFrom(r, |rows|, lo, Some(n.key));
      } else {
        assert r[i].left == next;
      }
    }
    assert r[i].right == NO_CHILD || OrderedFrom(r, r[i].right, Some(n.key), hi) by {
      if n.right != NO_CHILD {
        assert r[i].right == n.right;
        if next != NO_CHILD {
          DescendBounds(rows, k, next, lo, Some(n.key));
        }
        CompareAntisymmetric(rows[o.parent].key, n.key);
        OrderedFrame(rows, r, o.parent, n.right, Some(n.key), hi);
      }
    }
  }

  /** One step of InsertOrderedFrom when the key goes right of row i. */
  lemma {:induction false} InsertStepRight(rows: Meta, k: Bytes, v: int, i: nat, lo: Option<Bytes>, hi: Option<Bytes>)
    requires WellFormed(rows) && i < |rows| && OrderedFrom(rows, i, lo, hi)
    requires Between(k, lo, hi) && StoredKey(k) == k
    requires Descend(rows, k, i).Missing? && !Less(k, rows[i].key)
    requires rows[i].right != NO_CHILD ==> InsertedOrdered(rows, k, v, rows[i].right, Some(rows[i].key), hi)
    ensures InsertedOrdered(rows, k, v, i, lo, hi)
  {
    var o := Descend(rows, k, i);
    var row := Row(k, v, NO_CHILD, NO_CHILD);
    var r := UpdateLink(rows, o.parent, o.side, |rows|) + [row];
    FillSlot(rows, o.parent, o.side, row, k, i);
    var n := rows[i];
    var next := n.right;
    assert r[i].key == n.key;
    assert r[i].right == NO_CHILD || OrderedFrom(r, r[i].right, Some(n.key), hi) by {
      CompareAntisymmetric(k, n.key);
      if next == NO_CHILD {
        assert r[i].right == |rows|;
        assert OrderedFrom(r, |rows|, Some(n.key), hi);
      } else {
        assert r[i].right == next;
      }
    }
    assert r[i].left == NO_CHILD || OrderedFrom(r, r[i].left, lo, Some(n.key)) by {
      if n.left != NO_CHILD {
        assert r[i].left == n.left;
        if next != NO_CHILD {
          DescendBounds(rows, k, next, Some(n.key), hi);
        }
        CompareAntisymmetric(rows[o.parent].key, n.key);
        OrderedFrame(rows, r, o.parent, n.left, lo, Some(n.key));
      }
    }
  }

  /** `insert` keeps the tree ordered under `strcmp` for keys that survive
      the 36-byte field, and row 0 stays the root. */
  lemma {:induction false} InsertKeepsOrder(rows: Meta, k: Bytes, v: int)
    requires WellFormed(rows) && Ordered(rows) && FitsField(k, KEY_SIZE)
    ensures Ordered(Insert(rows, k, v))
    ensures |rows| > 0 ==> Insert(rows, k, v)[0].key == rows[0].key
  {
    var r := Insert(rows, k, v);
    if |rows| > 0 {
      match Descend(rows, k, 0)
      case Found(_) =>
        OrderedFrameAppend(rows, r, 0, None, None);
      case Missing(p, side) =>
        InsertOrderedFrom(rows, k, v, 0, None, None);
    }
  }

  /** The descent compares the key as given, but the row stores it as it
      reads back from the field. For a key ending in NUL the two differ:
      with "a" at the root, inserting "a\0" goes right (it is larger than
      "a") and hangs a second "a" there, so the tree is no longer strictly
      ordered. */
  lemma {:induction false} NulKeyBreaksOrder()
    ensures var rows := [Row([97], 0, NO_CHILD, NO_CHILD)];
      && WellFormed(rows) && Ordered(rows)
      && StoredKey([97, 0]) == [97]
      && !Ordered(Insert(rows, [97, 0], 1))
  {
    var rows := [Row([97], 0, NO_CHILD, NO_CHILD)];
    var k: Bytes := [97, 0];
    var a: Bytes := [97];
    StoredNulKey();
    assert k[1..] == [0] && a[1..] == [];
    assert Compare(k, a) == 1;
    assert Descend(rows, k, 0) == Missing(0, Right);
    var r := Insert(rows, k, 1);
    assert r[0].right == 1 && r[0].key == a && r[1].key == a;
    assert !Between(r[1].key, Some(r[0].key), None);
    assert !OrderedFrom(r, 1, Some(r[0].key), None);
    assert OrderedFrom(rows, 0, None, None);
  }

  lemma {:induction false} StoredNulKey()
    ensures StoredKey([97, 0]) == [97]
  {
    var k: Bytes := [97, 0];
    var f := Fit(k, KEY_SIZE, NUL);
    var r := RTrimNul(f);
    assert f[0] == 97 && forall i :: 1 <= i < KEY_SIZE ==> f[i] == NUL;
    assert |r| >= 1;
    assert f[|r| - 1] == r[|r| - 1] != NUL;
    assert r == f[..1] == [97];
  }

  /** Appending a row changes no ordered subtree. */
  lemma {:induction false} OrderedFrameAppend(rows: Meta, r: Meta, i: nat, lo: Option<Bytes>, hi: Option<Bytes>)
    requires WellFormed(rows) && WellFormed(r) && i < |rows| <= |r| && r[..|rows|] == rows
    requires OrderedFrom(rows, i, lo, hi)
    ensures OrderedFrom(r, i, lo, hi)
    decreases |rows| - i
  {
    var n := rows[i];
    assert r[i] == n;
    if n.left != NO_CHILD {
      OrderedFrameAppend(rows, r, n.left, lo, Some(n.key));
    }
    if n.right != NO_CHILD {
      OrderedFrameAppend(rows, r, n.right, Some(n.key), hi);
    }
  }

  // ---------------------------------------------------------------------
  // Keys inserted in increasing order

  /** Rows 0..n-1 form a chain of right children with increasing keys. */
  predicate RightChain(rows: Meta) {
    && (forall i :: 0 <= i < |rows| ==> rows[i].left == NO_CHILD)
    && (forall i :: 0 <= i < |rows| ==> rows[i].right == if i + 1 < |rows| then i + 1 else NO_CHILD)
    && (forall i, j :: 0 <= i < j < |rows| ==> Less(rows[i].key, rows[j].key))
  }

  lemma {:induction false} RightChainWellFormed(rows: Meta)
    requires RightChain(rows)
    ensures WellFormed(rows)
  {
  }

  lemma {:induction false} ChainDescend(rows: Meta, k: Bytes, i: nat)
    requires RightChain(rows) && WellFormed(rows) && i < |rows|
    requires forall j :: 0 <= j < |rows| ==> Less(rows[j].key, k)
    ensures Descend(rows, k, i) == Missing(|rows| - 1, Right)
    decreases |rows| - i
  {
    CompareAntisymmetric(rows[i].key, k);
    if i + 1 < |rows| {
      ChainDescend(rows, k, i + 1);
    }
  }

  /** Inserting a key larger than every key of a right chain hangs the new
      row as the right child of the previous last row: the chain grows. */
  lemma {:induction false} InsertIncreasingKeepsChain(rows: Meta, k: Bytes, v: int)
    requires RightChain(rows) && FitsField(k, KEY_SIZE)
    requires forall j :: 0 <= j < |rows| ==> Less(rows[j].key, k)
    ensures WellFormed(rows) && RightChain(Insert(rows, k, v))
  {
    RightChainWellFormed(rows);
    if |rows| > 0 {
      ChainDescend(rows, k, 0);
    }
  }
}
