/** The ghost tree behind a set of B+Tree pages: what it holds, how it is ordered, and how pages represent it. */
module BTreeShape {
  import opened Common

  /** One entry of a node page. Keys are the decoded values of a fixed-width key type. */
  datatype Cell<+V> = Cell(key: int, val: V)

  /** A page: leaves chain to the right; an inner page keeps its leftmost child in the link field. */
  datatype Node =
    | LeafNode(next: Option<PageId>, rows: seq<Cell<Rid>>)
    | InnerNode(p0: PageId, cells: seq<Cell<PageId>>)

  datatype Tree =
    | Leaf(id: PageId, rows: seq<Cell<Rid>>)
    | Inner(id: PageId, seps: seq<int>, kids: seq<Tree>)

  /** How many entries a leaf and an inner page take. */
  datatype Limits = Limits(leaf: nat, inner: nat)

  const LOWEST := -0x8000_0000_0000_0001
  const HIGHEST := 0x8000_0000_0000_0000

  // ---- contents ----

  function Flat(t: Tree): seq<Cell<Rid>>
    decreases t, 0
  {
    match t
    case Leaf(_, rows) => rows
    case Inner(_, _, kids) => FlatAll(kids)
  }

  function FlatAll(ts: seq<Tree>): seq<Cell<Rid>>
    decreases ts, 1
  {
    if ts == [] then [] else Flat(ts[0]) + FlatAll(ts[1..])
  }

  function Leaves(t: Tree): seq<PageId>
    decreases t, 0
  {
    match t
    case Leaf(id, _) => [id]
    case Inner(_, _, kids) => LeavesAll(kids)
  }

  function LeavesAll(ts: seq<Tree>): seq<PageId>
    decreases ts, 1
  {
    if ts == [] then [] else Leaves(ts[0]) + LeavesAll(ts[1..])
  }

  function Ids(t: Tree): set<PageId> {
    match t
    case Leaf(id, _) => {id}
    case Inner(id, _, kids) => {id} + set i, p | 0 <= i < |kids| && p in Ids(kids[i]) :: p
  }

  // ---- order and balance ----

  ghost predicate Sorted(rows: seq<Cell<Rid>>) {
    forall i, j :: 0 <= i < j < |rows| ==> rows[i].key < rows[j].key
  }

  ghost predicate Increasing(seps: seq<int>) {
    forall i, j :: 0 <= i < j < |seps| ==> seps[i] < seps[j]
  }

  function Low(seps: seq<int>, lo: int, i: nat): int
    requires i <= |seps|
  {
    if i == 0 then lo else seps[i - 1]
  }

  function High(seps: seq<int>, hi: int, i: nat): int
    requires i <= |seps|
  {
    if i == |seps| then hi else seps[i]
  }

  /** A search tree of height `h` with keys in [lo, hi): separators are strict bounds, all leaves are at the
      same depth, and no page is over capacity. */
  ghost predicate WF(m: Limits, t: Tree, h: nat, lo: int, hi: int)
    decreases t
  {
    match t
    case Leaf(_, rows) =>
      h == 0 && |rows| <= m.leaf && Sorted(rows) && forall c :: c in rows ==> lo <= c.key < hi
    case Inner(_, seps, kids) =>
      && h > 0 && |seps| <= m.inner && |kids| == |seps| + 1 && Increasing(seps)
      && (forall s :: s in seps ==> lo < s < hi)
      && forall i :: 0 <= i < |kids| ==> WF(m, kids[i], h - 1, Low(seps, lo, i), High(seps, hi, i))
  }

  ghost predicate Distinct(t: Tree)
    decreases t
  {
    match t
    case Leaf(_, _) => true
    case Inner(id, _, kids) =>
      && (forall i :: 0 <= i < |kids| ==> id !in Ids(kids[i]) && Distinct(kids[i]))
      && Apart(kids)
  }

  ghost predicate Apart(ts: seq<Tree>) {
    forall i, j :: 0 <= i < j < |ts| ==> Ids(ts[i]) !! Ids(ts[j])
  }

  // ---- pages ----

  ghost predicate Rep(pages: map<PageId, Node>, t: Tree)
    decreases t
  {
    && t.id in pages
    && match t
       case Leaf(id, rows) => pages[id].LeafNode? && pages[id].rows == rows
       case Inner(id, seps, kids) =>
         && pages[id].InnerNode? && |kids| == |seps| + 1 == |pages[id].cells| + 1
         && pages[id].p0 == kids[0].id
         && (forall i :: 0 <= i < |seps| ==> pages[id].cells[i] == Cell(seps[i], kids[i + 1].id))
         && forall i :: 0 <= i < |kids| ==> Rep(pages, kids[i])
  }

  ghost predicate Link(pages: map<PageId, Node>, p: PageId, next: Option<PageId>) {
    p in pages && pages[p].LeafNode? && pages[p].next == next
  }

  function NextOf(leaves: seq<PageId>, i: nat, last: Option<PageId>): Option<PageId> {
    if i + 1 < |leaves| then Some(leaves[i + 1]) else last
  }

  /** The leaves are linked left to right and the last one points to `last`. */
  ghost predicate Chain(pages: map<PageId, Node>, leaves: seq<PageId>, last: Option<PageId>) {
    forall i :: 0 <= i < |leaves| ==> Link(pages, leaves[i], NextOf(leaves, i, last))
  }

  /** Everything a stored index satisfies. */
  ghost predicate Stored(m: Limits, pages: map<PageId, Node>, t: Tree, h: nat) {
    WF(m, t, h, LOWEST, HIGHEST) && Distinct(t) && Rep(pages, t) && Chain(pages, Leaves(t), None)
  }

  // ---- lemmas ----

  lemma {:induction false} FlatAppend(a: seq<Tree>, b: seq<Tree>)
    ensures FlatAll(a + b) == FlatAll(a) + FlatAll(b)
    ensures LeavesAll(a + b) == LeavesAll(a) + LeavesAll(b)
  {
    if a == [] {
      assert a + b == b;
    } else {
      assert (a + b)[0] == a[0] && (a + b)[1..] == a[1..] + b;
      FlatAppend(a[1..], b);
    }
  }

  lemma FlatOne(t: Tree)
    ensures FlatAll([t]) == Flat(t) && LeavesAll([t]) == Leaves(t)
  {
    assert [t][1..] == [];
  }

  lemma {:induction false} LeavesExist(m: Limits, t: Tree, h: nat, lo: int, hi: int)
    requires WF(m, t, h, lo, hi)
    ensures Leaves(t) != []
  {
    if t.Inner? {
      LeavesExist(m, t.kids[0], h - 1, lo, High(t.seps, hi, 0));
    }
  }

  lemma {:induction false} LeavesInIds(t: Tree)
    ensures forall p :: p in Leaves(t) ==> p in Ids(t)
    decreases t, 0
  {
    if t.Inner? {
      LeavesAllInIds(t.kids);
    }
  }

  lemma {:induction false} LeavesAllInIds(ts: seq<Tree>)
    ensures forall p :: p in LeavesAll(ts) ==> exists i :: 0 <= i < |ts| && p in Ids(ts[i])
    decreases ts, 1
  {
    if ts != [] {
      LeavesInIds(ts[0]);
      LeavesAllInIds(ts[1..]);
      forall p | p in LeavesAll(ts[1..]) ensures exists i :: 0 <= i < |ts| && p in Ids(ts[i]) {
        var i :| 0 <= i < |ts[1..]| && p in Ids(ts[1..][i]);
        assert p in Ids(ts[i + 1]);
      }
    }
  }

  /** Keys stay within the bounds, and the in-order contents are strictly increasing. */
  lemma {:induction false} FlatOrdered(m: Limits, t: Tree, h: nat, lo: int, hi: int)
    requires WF(m, t, h, lo, hi)
    ensures Sorted(Flat(t)) && forall c :: c in Flat(t) ==> lo <= c.key < hi
    decreases t, 1, 0
  {
    if t.Inner? {
      RangeOrdered(m, t, h, lo, hi, 0, |t.kids|);
      assert t.kids[0..|t.kids|] == t.kids;
    }
  }

  lemma {:induction false} RangeOrdered(m: Limits, t: Tree, h: nat, lo: int, hi: int, a: nat, b: nat)
    requires WF(m, t, h, lo, hi) && t.Inner? && a <= b <= |t.kids|
    ensures Sorted(FlatAll(t.kids[a..b]))
    ensures a < b ==> forall c :: c in FlatAll(t.kids[a..b]) ==> Low(t.seps, lo, a) <= c.key < High(t.seps, hi, b - 1)
    decreases t, 0, b - a
  {
    if a < b {
      FlatOrdered(m, t.kids[a], h - 1, Low(t.seps, lo, a), High(t.seps, hi, a));
      RangeOrdered(m, t, h, lo, hi, a + 1, b);
      assert a < |t.seps| ==> t.seps[a] in t.seps;
      assert High(t.seps, hi, a) <= High(t.seps, hi, b - 1);
      assert a + 1 < b ==> Low(t.seps, lo, a) <= High(t.seps, hi, a) == Low(t.seps, lo, a + 1);
      assert t.kids[a..b][0] == t.kids[a] && t.kids[a..b][1..] == t.kids[a + 1..b];
    }
  }

  lemma {:induction false} RepFrame(before: map<PageId, Node>, after: map<PageId, Node>, t: Tree)
    requires Rep(before, t)
    requires forall p :: p in Ids(t) && p in before ==> p in after && after[p] == before[p]
    ensures Rep(after, t)
    decreases t
  {
    if t.Inner? {
      forall i | 0 <= i < |t.kids| ensures Rep(after, t.kids[i]) {
        RepFrame(before, after, t.kids[i]);
      }
    }
  }

  lemma {:induction false} RepIds(pages: map<PageId, Node>, t: Tree)
    requires Rep(pages, t)
    ensures Ids(t) <= pages.Keys
    decreases t
  {
    if t.Inner? {
      forall i | 0 <= i < |t.kids| ensures Ids(t.kids[i]) <= pages.Keys {
        RepIds(pages, t.kids[i]);
      }
    }
  }

  lemma ChainSplit(pages: map<PageId, Node>, a: seq<PageId>, b: seq<PageId>, last: Option<PageId>)
    ensures b == [] ==> (Chain(pages, a + b, last) <==> Chain(pages, a, last))
    ensures b != [] ==> (Chain(pages, a + b, last) <==> Chain(pages, a, Some(b[0])) && Chain(pages, b, last))
  {
    if b == [] {
      assert a + b == a;
    } else {
      var ab := a + b;
      forall i | 0 <= i < |b| ensures ab[|a| + i] == b[i] && NextOf(ab, |a| + i, last) == NextOf(b, i, last) {
      }
      forall i | 0 <= i < |a| ensures ab[i] == a[i] && NextOf(ab, i, last) == NextOf(a, i, Some(b[0])) {
      }
      if Chain(pages, a, Some(b[0])) && Chain(pages, b, last) {
        forall i | 0 <= i < |ab| ensures Link(pages, ab[i], NextOf(ab, i, last)) {
          if i >= |a| {
            assert Link(pages, b[i - |a|], NextOf(b, i - |a|, last));
          }
        }
      }
    }
  }

  // ---- searching ----

  /** The length of the longest prefix of keys that are at most `key`. */
  function Position(keys: seq<int>, key: int): (p: nat)
    ensures p <= |keys|
    ensures forall i :: 0 <= i < p ==> keys[i] <= key
    ensures p < |keys| ==> key < keys[p]
  {
    if keys == [] || key < keys[0] then 0 else 1 + Position(keys[1..], key)
  }

  function Keys<V>(cells: seq<Cell<V>>): (ks: seq<int>)
    ensures |ks| == |cells| && forall i :: 0 <= i < |ks| ==> ks[i] == cells[i].key
  {
    seq(|cells|, i requires 0 <= i < |cells| => cells[i].key)
  }

  /** The leaf a search for `key` ends in. */
  function LeafFor(t: Tree, key: int): Tree
    requires Whole(t)
    decreases t
  {
    match t
    case Leaf(_, _) => t
    case Inner(_, seps, kids) => LeafFor(kids[Position(seps, key)], key)
  }

  predicate Whole(t: Tree)
    decreases t
  {
    t.Inner? ==> |t.kids| == |t.seps| + 1 && forall i :: 0 <= i < |t.kids| ==> Whole(t.kids[i])
  }

  lemma {:induction false} WFWhole(m: Limits, t: Tree, h: nat, lo: int, hi: int)
    requires WF(m, t, h, lo, hi)
    ensures Whole(t)
    decreases t
  {
    if t.Inner? {
      forall i | 0 <= i < |t.kids| ensures Whole(t.kids[i]) {
        WFWhole(m, t.kids[i], h - 1, Low(t.seps, lo, i), High(t.seps, hi, i));
      }
    }
  }

  // ---- one more entry ----

  /** `b` is `a` with `c` added in one place, or `a` itself when `c` is already there. */
  ghost predicate Added(a: seq<Cell<Rid>>, b: seq<Cell<Rid>>, c: Cell<Rid>) {
    if c in a then b == a else exists p :: 0 <= p <= |a| && b == a[..p] + [c] + a[p..]
  }

  ghost predicate Dropped(a: seq<Cell<Rid>>, b: seq<Cell<Rid>>, c: Cell<Rid>) {
    if c in a then exists p :: 0 <= p < |a| && a[p] == c && b == a[..p] + a[p + 1..] else b == a
  }

  lemma AddedAt(u: seq<Cell<Rid>>, v: seq<Cell<Rid>>, c: Cell<Rid>)
    requires c !in u && c !in v
    ensures Added(u + v, u + [c] + v, c)
  {
    var a := u + v;
    assert a[..|u|] == u && a[|u|..] == v;
  }

  lemma DroppedAt(u: seq<Cell<Rid>>, v: seq<Cell<Rid>>, c: Cell<Rid>)
    ensures Dropped(u + [c] + v, u + v, c)
  {
    var a := u + [c] + v;
    assert a[..|u|] == u && a[|u|] == c && a[|u| + 1..] == v;
  }

  /** More on both sides. */
  lemma Around<T>(pre: seq<T>, u: seq<T>, m: seq<T>, v: seq<T>, post: seq<T>)
    ensures pre + (u + m + v) + post == (pre + u) + m + (v + post)
    ensures pre + (u + v) + post == (pre + u) + (v + post)
  {
  }

  lemma AddedInside(pre: seq<Cell<Rid>>, a: seq<Cell<Rid>>, b: seq<Cell<Rid>>, post: seq<Cell<Rid>>, c: Cell<Rid>)
    requires Added(a, b, c) && c !in pre && c !in post
    ensures Added(pre + a + post, pre + b + post, c)
  {
    if c in a {
      assert c in pre + a + post;
    } else {
      var p :| 0 <= p <= |a| && b == a[..p] + [c] + a[p..];
      assert a == a[..p] + a[p..];
      hide Added;
      Around(pre, a[..p], [c], a[p..], post);
      AddedAt(pre + a[..p], a[p..] + post, c);
    }
  }

  lemma DroppedInside(pre: seq<Cell<Rid>>, a: seq<Cell<Rid>>, b: seq<Cell<Rid>>, post: seq<Cell<Rid>>, c: Cell<Rid>)
    requires Dropped(a, b, c) && c !in pre && c !in post
    ensures Dropped(pre + a + post, pre + b + post, c)
  {
    if c in a {
      var p :| 0 <= p < |a| && a[p] == c && b == a[..p] + a[p + 1..];
      assert a == a[..p] + [c] + a[p + 1..];
      hide Dropped;
      Around(pre, a[..p], [c], a[p + 1..], post);
      DroppedAt(pre + a[..p], a[p + 1..] + post, c);
    } else {
      assert c !in pre + a + post;
    }
  }
}
