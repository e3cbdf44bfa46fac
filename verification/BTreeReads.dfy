/** Facts behind lookups, deletes and ordered reads: where a search ends, and what the leaf chain lists. */
module BTreeReads {
  import opened Common
  import opened BTreeShape
  import opened BTree

  // ---- the index as a sorted map ----

  function AsMap(rows: seq<Cell<Rid>>): map<int, Rid> {
    map c | c in rows :: c.key := Val(rows, c.key)
  }

  /** The first entry's row under a key. */
  function Val(rows: seq<Cell<Rid>>, key: int): Rid {
    if rows == [] then Rid(0, 0) else if rows[0].key == key then rows[0].val else Val(rows[1..], key)
  }

  lemma {:induction false} ValOf(rows: seq<Cell<Rid>>, c: Cell<Rid>)
    requires Sorted(rows) && c in rows
    ensures Val(rows, c.key) == c.val
  {
    if rows[0] != c {
      var k :| 0 < k < |rows| && rows[k] == c;
      assert c == rows[1..][k - 1];
      ValOf(rows[1..], c);
    }
  }

  lemma MapHas(rows: seq<Cell<Rid>>, c: Cell<Rid>)
    requires Sorted(rows) && c in rows
    ensures c.key in AsMap(rows) && AsMap(rows)[c.key] == c.val
  {
    ValOf(rows, c);
  }

  lemma MapFrom(rows: seq<Cell<Rid>>, key: int) returns (c: Cell<Rid>)
    requires key in AsMap(rows)
    ensures c in rows && c.key == key
  {
    c :| c in rows && c.key == key;
  }

  /** For ordered entries, adding one new entry is a map update and dropping one is a map removal. */
  lemma AddedIsUpdate(a: seq<Cell<Rid>>, b: seq<Cell<Rid>>, c: Cell<Rid>)
    requires Sorted(a) && Sorted(b) && Added(a, b, c)
    ensures AsMap(b) == AsMap(a)[c.key := c.val]
  {
    assert forall x :: x in b <==> x in a || x == c;
    hide Added;
    SameMaps(a, b, c);
  }

  lemma SameMaps(a: seq<Cell<Rid>>, b: seq<Cell<Rid>>, c: Cell<Rid>)
    requires Sorted(a) && Sorted(b) && forall x :: x in b <==> x in a || x == c
    ensures AsMap(b) == AsMap(a)[c.key := c.val]
  {
    hide AsMap;
    hide Sorted;
    MapHas(b, c);
    forall k | k in AsMap(b) ensures k in AsMap(a)[c.key := c.val] && AsMap(b)[k] == AsMap(a)[c.key := c.val][k] {
      if k != c.key {
        var x := MapFrom(b, k);
        MapHas(b, x);
        MapHas(a, x);
      }
    }
    forall k | k in AsMap(a)[c.key := c.val] ensures k in AsMap(b) {
      if k != c.key {
        var x := MapFrom(a, k);
        MapHas(b, x);
      }
    }
  }

  lemma DroppedIsRemoval(a: seq<Cell<Rid>>, b: seq<Cell<Rid>>, c: Cell<Rid>)
    requires Sorted(a) && Sorted(b) && Dropped(a, b, c)
    ensures if c in a then AsMap(b) == AsMap(a) - {c.key} else b == a
  {
    if c in a {
      DroppedOnly(a, b, c);
      hide *;
      SameMaps(b, a, c);
      if c.key in AsMap(b) {
        var x := MapFrom(b, c.key);
      }
      RemoveUndoesPut(AsMap(b), c.key, c.val);
    }
  }

  lemma RemoveUndoesPut<T>(m: map<int, T>, k: int, v: T)
    requires k !in m
    ensures m[k := v] - {k} == m
  {
  }

  lemma DroppedOnly(a: seq<Cell<Rid>>, b: seq<Cell<Rid>>, c: Cell<Rid>)
    requires Sorted(a) && Dropped(a, b, c) && c in a
    ensures forall x :: x in b ==> x in a && x.key != c.key
    ensures forall x :: x in a ==> x in b || x == c
  {
    var p :| 0 <= p < |a| && a[p] == c && b == a[..p] + a[p + 1..];
    WithoutOne(a, p, b);
    hide Dropped;
    forall k | 0 <= k < |b| ensures b[k] in a && b[k].key != c.key {
    }
    forall k | 0 <= k < |a| ensures a[k] in b || a[k] == c {
      if k != p {
        assert b[if k < p then k else k - 1] == a[k];
      }
    }
  }

  lemma WithoutOne<T>(a: seq<T>, p: nat, b: seq<T>)
    requires p < |a| && b == a[..p] + a[p + 1..]
    ensures |b| == |a| - 1 && forall k :: 0 <= k < |b| ==> b[k] == a[if k < p then k else k + 1]
  {
  }

  /** The rows stored under one key, in order. */
  function RidsUnder(rows: seq<Cell<Rid>>, key: int): seq<Rid> {
    if rows == [] then [] else (if rows[0].key == key then [rows[0].val] else []) + RidsUnder(rows[1..], key)
  }

  lemma {:induction false} NoneUnder(rows: seq<Cell<Rid>>, key: int)
    requires forall k :: 0 <= k < |rows| ==> rows[k].key != key
    ensures RidsUnder(rows, key) == []
  {
    if rows != [] {
      NoneUnder(rows[1..], key);
    }
  }

  lemma {:induction false} OneUnder(rows: seq<Cell<Rid>>, c: Cell<Rid>)
    requires Sorted(rows) && c in rows
    ensures RidsUnder(rows, c.key) == [c.val]
  {
    if rows[0] == c {
      NoneUnder(rows[1..], c.key);
    } else {
      var k :| 0 < k < |rows| && rows[k] == c;
      assert c == rows[1..][k - 1];
      OneUnder(rows[1..], c);
    }
  }

  lemma OnlyInLeaf(all: seq<Cell<Rid>>, a: seq<Cell<Rid>>, rows: seq<Cell<Rid>>, b: seq<Cell<Rid>>, key: int)
    requires all == a + rows + b
    requires (forall c :: c in a ==> c.key < key) && forall c :: c in b ==> key < c.key
    ensures forall c :: c in rows ==> c in all
    ensures forall c :: c in all && c.key == key ==> c in rows
  {
  }

  /** Looking only at one leaf's entries answers as the whole map does. */
  lemma LookupIsMap(all: seq<Cell<Rid>>, rows: seq<Cell<Rid>>, key: int)
    requires Sorted(all) && Sorted(rows)
    requires forall c :: c in rows ==> c in all
    requires forall c :: c in all && c.key == key ==> c in rows
    ensures RidsUnder(rows, key) == if key in AsMap(all) then [AsMap(all)[key]] else []
  {
    if key in AsMap(all) {
      var c := MapFrom(all, key);
      MapHas(all, c);
      OneUnder(rows, c);
    } else {
      forall k | 0 <= k < |rows| ensures rows[k].key != key {
        assert rows[k] in all;
        MapHas(all, rows[k]);
      }
      NoneUnder(rows, key);
    }
  }

  lemma ReadyAtRoot(m: Limits, pages: map<PageId, Node>, t: Tree, h: nat, c: Cell<Rid>)
    requires Stored(m, pages, t, h) && LOWEST <= c.key < HIGHEST
    requires c.key in AsMap(Flat(t)) ==> AsMap(Flat(t))[c.key] == c.val
    ensures Ready(m, pages, t, h, LOWEST, HIGHEST, None, c)
  {
    hide AsMap;
    FlatOrdered(m, t, h, LOWEST, HIGHEST);
    forall x | x in Flat(t) && x.key == c.key ensures x == c {
      MapHas(Flat(t), x);
    }
  }

  lemma StoredAddsOne(m: Limits, before: map<PageId, Node>, after: map<PageId, Node>, t: Tree, h: nat, u: Tree,
    g: nat, c: Cell<Rid>)
    requires Stored(m, before, t, h) && Stored(m, after, u, g) && Added(Flat(t), Flat(u), c)
    ensures AsMap(Flat(u)) == AsMap(Flat(t))[c.key := c.val]
  {
    FlatOrdered(m, t, h, LOWEST, HIGHEST);
    FlatOrdered(m, u, g, LOWEST, HIGHEST);
    AddedIsUpdate(Flat(t), Flat(u), c);
  }

  // ---- the leaf chain ----

  function RowsAt(pages: map<PageId, Node>, p: PageId): seq<Cell<Rid>> {
    if p in pages && pages[p].LeafNode? then pages[p].rows else []
  }

  function RowsOf(pages: map<PageId, Node>, ls: seq<PageId>): seq<Cell<Rid>> {
    if ls == [] then [] else RowsAt(pages, ls[0]) + RowsOf(pages, ls[1..])
  }

  lemma {:induction false} RowsAppend(pages: map<PageId, Node>, a: seq<PageId>, b: seq<PageId>)
    ensures RowsOf(pages, a + b) == RowsOf(pages, a) + RowsOf(pages, b)
  {
    if a == [] {
      assert a + b == b;
    } else {
      assert (a + b)[0] == a[0] && (a + b)[1..] == a[1..] + b;
      RowsAppend(pages, a[1..], b);
    }
  }

  /** Reading the leaves in order reads the whole contents in order. */
  lemma {:induction false} ChainListsAll(pages: map<PageId, Node>, t: Tree)
    requires Rep(pages, t)
    ensures RowsOf(pages, Leaves(t)) == Flat(t)
    decreases t, 0
  {
    match t
    case Leaf(id, rows) =>
      assert [id][1..] == [];
    case Inner(_, _, kids) =>
      ChainListsForest(pages, kids);
  }

  lemma {:induction false} ChainListsForest(pages: map<PageId, Node>, ts: seq<Tree>)
    requires forall i :: 0 <= i < |ts| ==> Rep(pages, ts[i])
    ensures RowsOf(pages, LeavesAll(ts)) == FlatAll(ts)
    decreases ts, 1
  {
    if ts != [] {
      ChainListsAll(pages, ts[0]);
      ChainListsForest(pages, ts[1..]);
      RowsAppend(pages, Leaves(ts[0]), LeavesAll(ts[1..]));
    }
  }

  /** The leaf a search ends in divides the contents: everything left of it is smaller, everything right larger. */
  lemma {:induction false} SearchDivides(m: Limits, pages: map<PageId, Node>, t: Tree, h: nat, lo: int, hi: int,
    key: int)
    returns (a: seq<PageId>, b: seq<PageId>)
    requires WF(m, t, h, lo, hi) && Rep(pages, t) && lo <= key < hi
    ensures Whole(t) && LeafFor(t, key).Leaf? && Rep(pages, LeafFor(t, key))
    ensures Leaves(t) == a + [LeafFor(t, key).id] + b
    ensures Flat(t) == RowsOf(pages, a) + LeafFor(t, key).rows + RowsOf(pages, b)
    ensures forall c :: c in RowsOf(pages, a) ==> c.key < key
    ensures forall c :: c in RowsOf(pages, b) ==> key < c.key
    ensures Sorted(LeafFor(t, key).rows)
    decreases t
  {
    WFWhole(m, t, h, lo, hi);
    if t.Leaf? {
      a, b := [], [];
    } else {
      var i := Position(t.seps, key);
      ChildInRange(t.seps, key, lo, hi);
      var x, y := SearchDivides(m, pages, t.kids[i], h - 1, Low(t.seps, lo, i), High(t.seps, hi, i), key);
      a, b := LeavesAll(t.kids[..i]) + x, y + LeavesAll(t.kids[i + 1..]);
      hide WF;
      hide Sorted;
      hide Flat;
      hide Leaves;
      hide RowsOf;
      hide Position;
      KeysBeside(m, t, h, lo, hi, i);
      LeftOfChild(pages, t.kids[..i], key, x);
      RightOfChild(pages, t.kids[i + 1..], key, y);
      ChildInMiddle(t, i);
      var leaf := LeafFor(t.kids[i], key);
      Regroup(LeavesAll(t.kids[..i]), x, [leaf.id], y, LeavesAll(t.kids[i + 1..]));
      Regroup(FlatAll(t.kids[..i]), RowsOf(pages, x), leaf.rows, RowsOf(pages, y), FlatAll(t.kids[i + 1..]));
    }
  }

  lemma KeysBeside(m: Limits, t: Tree, h: nat, lo: int, hi: int, i: nat)
    requires WF(m, t, h, lo, hi) && t.Inner? && i < |t.kids|
    ensures forall c :: c in FlatAll(t.kids[..i]) ==> c.key < Low(t.seps, lo, i)
    ensures forall c :: c in FlatAll(t.kids[i + 1..]) ==> High(t.seps, hi, i) <= c.key
  {
    RangeOrdered(m, t, h, lo, hi, 0, i);
    RangeOrdered(m, t, h, lo, hi, i + 1, |t.kids|);
    hide WF;
    hide FlatAll;
    assert t.kids[0..i] == t.kids[..i] && t.kids[i + 1..|t.kids|] == t.kids[i + 1..];
  }

  lemma LeftOfChild(pages: map<PageId, Node>, ts: seq<Tree>, key: int, x: seq<PageId>)
    requires forall i :: 0 <= i < |ts| ==> Rep(pages, ts[i])
    requires (forall c :: c in FlatAll(ts) ==> c.key < key) && forall c :: c in RowsOf(pages, x) ==> c.key < key
    ensures RowsOf(pages, LeavesAll(ts) + x) == FlatAll(ts) + RowsOf(pages, x)
    ensures forall c :: c in RowsOf(pages, LeavesAll(ts) + x) ==> c.key < key
  {
    hide *;
    ChainListsForest(pages, ts);
    RowsAppend(pages, LeavesAll(ts), x);
  }

  lemma RightOfChild(pages: map<PageId, Node>, ts: seq<Tree>, key: int, y: seq<PageId>)
    requires forall i :: 0 <= i < |ts| ==> Rep(pages, ts[i])
    requires (forall c :: c in FlatAll(ts) ==> key < c.key) && forall c :: c in RowsOf(pages, y) ==> key < c.key
    ensures RowsOf(pages, y + LeavesAll(ts)) == RowsOf(pages, y) + FlatAll(ts)
    ensures forall c :: c in RowsOf(pages, y + LeavesAll(ts)) ==> key < c.key
  {
    hide *;
    ChainListsForest(pages, ts);
    RowsAppend(pages, y, LeavesAll(ts));
  }

  lemma ChildInMiddle(t: Tree, i: nat)
    requires t.Inner? && i < |t.kids|
    ensures Leaves(t) == LeavesAll(t.kids[..i]) + Leaves(t.kids[i]) + LeavesAll(t.kids[i + 1..])
    ensures Flat(t) == FlatAll(t.kids[..i]) + Flat(t.kids[i]) + FlatAll(t.kids[i + 1..])
  {
    var l, r := t.kids[..i], t.kids[i + 1..];
    assert t.kids == l + [t.kids[i]] + r;
    FlatAppend(l + [t.kids[i]], r);
    FlatAppend(l, [t.kids[i]]);
    FlatOne(t.kids[i]);
  }

  lemma Regroup<T>(l: seq<T>, x: seq<T>, m: seq<T>, y: seq<T>, r: seq<T>)
    ensures l + (x + m + y) + r == (l + x) + m + (y + r)
  {
  }

  // ---- reads by key ----

  /** The entries from the first key that is at least `key` on. */
  function FromKey(rows: seq<Cell<Rid>>, key: int): seq<Cell<Rid>> {
    if rows == [] || key <= rows[0].key then rows else FromKey(rows[1..], key)
  }

  /** The entries with keys in a closed range, in order. */
  function InRange(rows: seq<Cell<Rid>>, low: int, high: int): seq<Cell<Rid>> {
    if rows == [] then []
    else (if low <= rows[0].key <= high then [rows[0]] else []) + InRange(rows[1..], low, high)
  }

  lemma {:induction false} FromKeySkips(a: seq<Cell<Rid>>, b: seq<Cell<Rid>>, key: int)
    requires forall c :: c in a ==> c.key < key
    ensures FromKey(a + b, key) == FromKey(b, key)
  {
    if a == [] {
      assert a + b == b;
    } else {
      assert (a + b)[1..] == a[1..] + b;
      assert a[0] in a;
      FromKeySkips(a[1..], b, key);
    }
  }

  /** Starting at the lower bound misses nothing, and what is left is in order and above the bound. */
  lemma {:induction false} FromKeyKeeps(rows: seq<Cell<Rid>>, low: int, high: int)
    requires Sorted(rows)
    ensures InRange(FromKey(rows, low), low, high) == InRange(rows, low, high)
    ensures Sorted(FromKey(rows, low)) && forall c :: c in FromKey(rows, low) ==> low <= c.key
  {
    if rows == [] {
    } else if low <= rows[0].key {
      forall c | c in rows ensures low <= c.key {
        var k :| 0 <= k < |rows| && rows[k] == c;
      }
    } else {
      FromKeyKeeps(rows[1..], low, high);
    }
  }

  lemma {:induction false} NoneInRange(rows: seq<Cell<Rid>>, low: int, high: int)
    requires forall c :: c in rows ==> high < c.key
    ensures InRange(rows, low, high) == []
  {
    if rows != [] {
      assert rows[0] in rows;
      NoneInRange(rows[1..], low, high);
    }
  }

  /** In-range entries are exactly those of the map with a key in the range. */
  lemma {:induction false} InRangeExactly(rows: seq<Cell<Rid>>, low: int, high: int)
    requires Sorted(rows)
    ensures Sorted(InRange(rows, low, high))
    ensures forall c :: c in InRange(rows, low, high) <==> c in rows && low <= c.key <= high
  {
    if rows != [] {
      InRangeExactly(rows[1..], low, high);
      var rest := InRange(rows[1..], low, high);
      forall k | 0 <= k < |rest| ensures rows[0].key < rest[k].key {
        assert rest[k] in rest;
        var j :| 0 <= j < |rows[1..]| && rows[1..][j] == rest[k];
        assert rest[k] == rows[j + 1];
      }
      FirstOrLater(rows);
      assert InRange(rows, low, high) == if low <= rows[0].key <= high then [rows[0]] + rest else rest;
      hide InRange;
    }
  }

  lemma FirstOrLater<T>(rows: seq<T>)
    requires rows != []
    ensures forall c :: c in rows <==> c == rows[0] || c in rows[1..]
  {
    assert rows == [rows[0]] + rows[1..];
  }

  datatype Cursor = Cursor(page: PageId, slot: nat)

  /** What a scan standing at slot `slot` of leaf number `m` still has to read. */
  function RestAt(pages: map<PageId, Node>, ls: seq<PageId>, m: nat, slot: nat): seq<Cell<Rid>>
    requires m < |ls| && slot <= |RowsAt(pages, ls[m])|
  {
    RowsAt(pages, ls[m])[slot..] + RowsOf(pages, ls[m + 1..])
  }

  /** `cursor` stands for the entries `rest` still to come. */
  ghost predicate Stands(pages: map<PageId, Node>, ls: seq<PageId>, cursor: Option<Cursor>, rest: seq<Cell<Rid>>) {
    match cursor
    case None => rest == []
    case Some(c) =>
      exists m: nat :: m < |ls| && ls[m] == c.page && c.slot <= |RowsAt(pages, ls[m])| &&
        rest == RestAt(pages, ls, m, c.slot)
  }

  lemma StandsAt(pages: map<PageId, Node>, ls: seq<PageId>, m: nat, slot: nat)
    requires m < |ls| && slot <= |RowsAt(pages, ls[m])|
    ensures Stands(pages, ls, Some(Cursor(ls[m], slot)), RestAt(pages, ls, m, slot))
  {
  }

  // ---- deletes ----

  ghost predicate LeafRewritten(before: map<PageId, Node>, after: map<PageId, Node>, leaf: Tree, c: Cell<Rid>,
                                rows: seq<Cell<Rid>>)
  {
    && leaf.Leaf? && leaf.id in before && before[leaf.id].LeafNode?
    && after == before[leaf.id := LeafNode(before[leaf.id].next, rows)] && Dropped(leaf.rows, rows, c)
  }

  /** A leaf page lost entries: the tree stays a search tree over the same pages. */
  lemma {:induction false} LeafShrinks(m: Limits, pages: map<PageId, Node>, first: PageId, after: map<PageId, Node>,
                                       t: Tree, h: nat, lo: int, hi: int, c: Cell<Rid>, rows: seq<Cell<Rid>>)
    returns (u: Tree)
    requires WF(m, t, h, lo, hi) && Distinct(t) && Rep(pages, t) && lo <= c.key < hi && Whole(t)
    requires forall p :: p in pages ==> p < first
    requires LeafRewritten(pages, after, LeafFor(t, c.key), c, rows)
    ensures WF(m, u, h, lo, hi) && Distinct(u) && Rep(after, u) && Whole(u)
    ensures u.id == t.id && Ids(u) <= Ids(t) && Leaves(u) == Leaves(t)
    ensures LeafFor(t, c.key).id in Ids(t) && Dropped(Flat(t), Flat(u), c)
    decreases t
  {
    if t.Leaf? {
      u := Leaf(t.id, rows);
      StillSorted(t.rows, rows, c);
    } else {
      var i := Position(t.seps, c.key);
      ChildInRange(t.seps, c.key, lo, hi);
      assert h > 0 && |t.kids| == |t.seps| + 1 && WF(m, t.kids[i], h - 1, Low(t.seps, lo, i), High(t.seps, hi, i));
      hide WF;
      hide Rep;
      hide Distinct;
      hide Dropped;
      var kid := LeafShrinks(m, pages, first, after, t.kids[i], h - 1, Low(t.seps, lo, i), High(t.seps, hi, i), c,
        rows);
      u := Inner(t.id, t.seps, NewKids(t.kids, i, [kid]));
      ParentShrinks(m, pages, first, after, t, h, lo, hi, i, kid, u);
      ParentContents(m, t, h, lo, hi, c, i, kid, u);
      WFWhole(m, u, h, lo, hi);
    }
  }

  lemma StillSorted(a: seq<Cell<Rid>>, b: seq<Cell<Rid>>, c: Cell<Rid>)
    requires Sorted(a) && Dropped(a, b, c)
    ensures Sorted(b) && |b| <= |a| && forall x :: x in b ==> x in a
  {
    if c in a {
      var p :| 0 <= p < |a| && a[p] == c && b == a[..p] + a[p + 1..];
      WithoutOne(a, p, b);
      hide Dropped;
    }
  }

  lemma ParentShrinks(m: Limits, pages: map<PageId, Node>, first: PageId, after: map<PageId, Node>, t: Tree, h: nat,
                      lo: int, hi: int, i: nat, kid: Tree, u: Tree)
    requires WF(m, t, h, lo, hi) && Distinct(t) && Rep(pages, t) && t.Inner? && i < |t.kids|
    requires forall p :: p in pages ==> p < first
    requires forall p :: p in pages && p !in Ids(t.kids[i]) ==> p in after && after[p] == pages[p]
    requires WF(m, kid, h - 1, Low(t.seps, lo, i), High(t.seps, hi, i)) && Distinct(kid) && Rep(after, kid)
    requires kid.id == t.kids[i].id && Ids(kid) <= Ids(t.kids[i])
    requires u == Inner(t.id, t.seps, NewKids(t.kids, i, [kid]))
    ensures WF(m, u, h, lo, hi) && Distinct(u) && Rep(after, u) && Ids(u) <= Ids(t)
  {
    hide WF;
    hide Rep;
    hide Distinct;
    InnerBasics(m, pages, t, h, lo, hi);
    assert WF(m, u, h, lo, hi) by {
      KidsReplaced(m, t, h, lo, hi, i, Fit, [kid]);
      InnerWF(m, u, h, lo, hi);
    }
    assert Rep(after, u) && Distinct(u) by {
      assert RepAll(after, [kid]) && Apart([kid]);
      hide RepAll;
      hide Apart;
      InnerPageSame(t, i, kid);
      KidsStillStored(pages, after, first, first, t, i, [kid]);
      InnerStored(after, t.id, t.seps, u.kids);
    }
    IdsShrink(t, u, i, kid);
  }

  lemma ParentContents(m: Limits, t: Tree, h: nat, lo: int, hi: int, c: Cell<Rid>, i: nat, kid: Tree, u: Tree)
    requires WF(m, t, h, lo, hi) && t.Inner? && i < |t.kids| && Low(t.seps, lo, i) <= c.key < High(t.seps, hi, i)
    requires Leaves(kid) == Leaves(t.kids[i]) && Dropped(Flat(t.kids[i]), Flat(kid), c)
    requires u == Inner(t.id, t.seps, NewKids(t.kids, i, [kid]))
    ensures Leaves(u) == Leaves(t) && Dropped(Flat(t), Flat(u), c)
  {
    hide WF;
    hide Dropped;
    FlatOne(kid);
    ContentsReplaced(m, t, h, lo, hi, i, [kid], c);
    ChildInMiddle(t, i);
    FlatAppend(t.kids[..i] + [kid], t.kids[i + 1..]);
    FlatAppend(t.kids[..i], [kid]);
  }

  lemma InnerBasics(m: Limits, pages: map<PageId, Node>, t: Tree, h: nat, lo: int, hi: int)
    requires WF(m, t, h, lo, hi) && Distinct(t) && Rep(pages, t) && t.Inner?
    ensures h > 0 && |t.kids| == |t.seps| + 1 && |t.seps| <= m.inner
    ensures t.id in pages && pages[t.id] == InnerPage(t.seps, t.kids)
    ensures forall i :: 0 <= i < |t.kids| ==> t.id !in Ids(t.kids[i])
  {
    InnerPageUnique(pages, t);
  }

  lemma IdsShrink(t: Tree, u: Tree, i: nat, kid: Tree)
    requires t.Inner? && i < |t.kids| && u.Inner? && u.id == t.id && u.kids == NewKids(t.kids, i, [kid])
    requires Ids(kid) <= Ids(t.kids[i])
    ensures Ids(u) <= Ids(t)
  {
    forall p | p in Ids(u) && p != t.id ensures p in Ids(t) {
      var j :| 0 <= j < |u.kids| && p in Ids(u.kids[j]);
      assert u.kids[j] == if j == i then kid else t.kids[j];
    }
  }

  lemma ChainRewritten(before: map<PageId, Node>, after: map<PageId, Node>, leaves: seq<PageId>, last: Option<PageId>,
                       p: PageId, rows: seq<Cell<Rid>>)
    requires Chain(before, leaves, last) && p in before && before[p].LeafNode?
    requires after == before[p := LeafNode(before[p].next, rows)]
    ensures Chain(after, leaves, last)
  {
    forall i | 0 <= i < |leaves| ensures Link(after, leaves[i], NextOf(leaves, i, last)) {
      assert Link(before, leaves[i], NextOf(leaves, i, last));
    }
  }

  /** Rewriting the leaf of `c` without it leaves a stored index without it. */
  lemma DeleteStored(m: Limits, pages: map<PageId, Node>, first: PageId, after: map<PageId, Node>, t: Tree, h: nat,
                     c: Cell<Rid>, rows: seq<Cell<Rid>>) returns (u: Tree)
    requires Stored(m, pages, t, h) && LOWEST <= c.key < HIGHEST && Whole(t) && forall p :: p in pages ==> p < first
    requires LeafRewritten(pages, after, LeafFor(t, c.key), c, rows)
    ensures Stored(m, after, u, h) && u.id == t.id && Dropped(Flat(t), Flat(u), c)
    ensures c in Flat(t) ==> AsMap(Flat(u)) == AsMap(Flat(t)) - {c.key}
  {
    hide Dropped;
    hide WF;
    u := LeafShrinks(m, pages, first, after, t, h, LOWEST, HIGHEST, c, rows);
    ChainRewritten(pages, after, Leaves(t), None, LeafFor(t, c.key).id, rows);
    FlatOrdered(m, t, h, LOWEST, HIGHEST);
    FlatOrdered(m, u, h, LOWEST, HIGHEST);
    DroppedIsRemoval(Flat(t), Flat(u), c);
  }

  /** Skipping leaves whose keys are all too small. */
  lemma RestUnfolds(pages: map<PageId, Node>, ls: seq<PageId>, m: nat, slot: nat)
    requires m < |ls| && slot <= |RowsAt(pages, ls[m])|
    ensures slot < |RowsAt(pages, ls[m])| ==>
      RestAt(pages, ls, m, slot) == [RowsAt(pages, ls[m])[slot]] + RestAt(pages, ls, m, slot + 1)
    ensures slot == |RowsAt(pages, ls[m])| ==>
      RestAt(pages, ls, m, slot) == if m + 1 < |ls| then RestAt(pages, ls, m + 1, 0) else []
  {
    var rows := RowsAt(pages, ls[m]);
    if slot < |rows| {
      assert rows[slot..] == [rows[slot]] + rows[slot + 1..];
    } else {
      assert rows[slot..] == [];
      if m + 1 < |ls| {
        assert ls[m + 1..][0] == ls[m + 1] && ls[m + 1..][1..] == ls[m + 2..];
        assert RowsAt(pages, ls[m + 1])[0..] == RowsAt(pages, ls[m + 1]);
      }
    }
  }

  /** The leaf number `m` of a stored index is in its page and links to the next. */
  lemma LeafInChain(lim: Limits, pages: map<PageId, Node>, t: Tree, h: nat, m: nat)
    requires Stored(lim, pages, t, h) && m < |Leaves(t)|
    ensures Link(pages, Leaves(t)[m], NextOf(Leaves(t), m, None))
  {
  }

  /** The leaf a search ends in is number `m` of the chain, and no earlier leaf holds a key that large. */
  lemma SearchStart(lim: Limits, pages: map<PageId, Node>, t: Tree, h: nat, key: int) returns (m: nat)
    requires Stored(lim, pages, t, h) && LOWEST <= key < HIGHEST && Whole(t)
    ensures m < |Leaves(t)| && Leaves(t)[m] == LeafFor(t, key).id
    ensures FromKey(RestAt(pages, Leaves(t), m, 0), key) == FromKey(Flat(t), key)
  {
    var a, b := SearchDivides(lim, pages, t, h, LOWEST, HIGHEST, key);
    m := |a|;
    StartOfSearch(pages, Leaves(t), a, LeafFor(t, key).id, b, Flat(t), LeafFor(t, key).rows, key);
  }

  lemma StartOfSearch(pages: map<PageId, Node>, ls: seq<PageId>, a: seq<PageId>, page: PageId, b: seq<PageId>,
                      all: seq<Cell<Rid>>, rows: seq<Cell<Rid>>, key: int)
    requires ls == a + [page] + b && rows == RowsAt(pages, page) && all == RowsOf(pages, a) + rows + RowsOf(pages, b)
    requires forall c :: c in RowsOf(pages, a) ==> c.key < key
    ensures ls[|a|] == page && FromKey(RestAt(pages, ls, |a|, 0), key) == FromKey(all, key)
  {
    assert ls[|a| + 1..] == b && rows[0..] == rows;
    assert all == RowsOf(pages, a) + (rows + RowsOf(pages, b));
    FromKeySkips(RowsOf(pages, a), rows + RowsOf(pages, b), key);
  }

  lemma AllPast(rest: seq<Cell<Rid>>, low: int, high: int)
    requires Sorted(rest) && rest != [] && high < rest[0].key
    ensures InRange(rest, low, high) == []
  {
    forall c | c in rest ensures high < c.key {
      var k :| 0 <= k < |rest| && rest[k] == c;
    }
    NoneInRange(rest, low, high);
  }

  lemma FromNothing(key: int)
    ensures FromKey([], key) == []
  {
  }

  lemma FromKeyStep(rows: seq<Cell<Rid>>, c: Cell<Rid>, rest: seq<Cell<Rid>>, key: int)
    requires rows == [c] + rest
    ensures FromKey(rows, key) == if key <= c.key then rows else FromKey(rest, key)
  {
    assert rows[1..] == rest;
  }

  /** What a scan has not read yet: in order, and not below the lower bound. */
  ghost predicate Ahead(rest: seq<Cell<Rid>>, low: int) {
    Sorted(rest) && forall c :: c in rest ==> low <= c.key
  }

  lemma ScanStart(lim: Limits, pages: map<PageId, Node>, t: Tree, h: nat, low: int, high: int)
    requires Stored(lim, pages, t, h)
    ensures Ahead(FromKey(Flat(t), low), low)
    ensures InRange(FromKey(Flat(t), low), low, high) == InRange(Flat(t), low, high)
    ensures InRange([], low, high) == []
  {
    FlatOrdered(lim, t, h, LOWEST, HIGHEST);
    FromKeyKeeps(Flat(t), low, high);
  }

  lemma ScanStep(rest: seq<Cell<Rid>>, low: int, high: int)
    requires Ahead(rest, low) && rest != []
    ensures low <= rest[0].key && Ahead(rest[1..], low)
    ensures InRange(rest, low, high) == if rest[0].key <= high then [rest[0]] + InRange(rest[1..], low, high) else []
  {
    assert rest[0] in rest;
    if high < rest[0].key {
      AllPast(rest, low, high);
    }
  }
}
