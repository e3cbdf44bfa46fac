/** Facts behind the bottom-up bulk build: levels of finished nodes, packed left to right under new parents. */
module BTreeBulk {
  import opened Common
  import opened BTreeShape
  import opened BTree

  /** Nodes of one level, with the first key and the page of each, form a row of ordered trees below `hi`. */
  ghost predicate Row(m: Limits, nodes: seq<Cell<PageId>>, trees: seq<Tree>, h: nat, hi: int) {
    && |nodes| == |trees| > 0 && (forall k :: 0 <= k < |nodes| ==> nodes[k].val == trees[k].id)
    && KidsOk(m, Keys(nodes)[1..], trees, h, nodes[0].key, hi)
  }

  /** Separate trees stored in pages, with chained leaves that list exactly `entries`. */
  ghost predicate Forest(pages: map<PageId, Node>, ts: seq<Tree>, entries: seq<Cell<Rid>>) {
    RepAll(pages, ts) && Apart(ts) && FlatAll(ts) == entries && Chain(pages, LeavesAll(ts), None)
  }

  ghost predicate Level(m: Limits, pages: map<PageId, Node>, nodes: seq<Cell<PageId>>, trees: seq<Tree>, h: nat,
                        hi: int, entries: seq<Cell<Rid>>)
  {
    Row(m, nodes, trees, h, hi) && Forest(pages, trees, entries)
  }

  /** The first key not yet packed, or the upper end. */
  function TopOf<V>(cells: seq<Cell<V>>, i: nat): int {
    if i < |cells| then cells[i].key else HIGHEST
  }

  lemma RowAppend(m: Limits, nodes: seq<Cell<PageId>>, trees: seq<Tree>, h: nat, key: int, t: Tree, hi: int)
    requires if nodes == [] then trees == [] else Row(m, nodes, trees, h, key) && nodes[0].key < key
    requires WF(m, t, h, key, hi) && key < hi
    ensures Row(m, nodes + [Cell(key, t.id)], trees + [t], h, hi)
  {
    hide WF;
    var more, kids := nodes + [Cell(key, t.id)], trees + [t];
    var seps := Keys(more)[1..];
    if nodes != [] {
      var was := Keys(nodes)[1..];
      assert seps == was + [key];
      forall s | s in seps ensures more[0].key < s < hi {
        assert s in was || s == key;
      }
      forall i, j | 0 <= i < j < |seps| ensures seps[i] < seps[j] {
        assert was[i] in was;
      }
      forall i | 0 <= i < |kids| ensures WF(m, kids[i], h, Low(seps, more[0].key, i), High(seps, hi, i)) {
        if i < |trees| {
          assert WF(m, trees[i], h, Low(was, nodes[0].key, i), High(was, key, i));
        }
      }
    }
  }

  /** A run of a row's trees under one new parent is a search tree over the run's range. */
  lemma PackedWF(m: Limits, nodes: seq<Cell<PageId>>, trees: seq<Tree>, h: nat, a: nat, b: nat, id: PageId)
    requires Row(m, nodes, trees, h, HIGHEST) && a < b <= |nodes| && b - a - 1 <= m.inner && nodes[0].key < HIGHEST
    ensures WF(m, Inner(id, Keys(nodes[a + 1..b]), trees[a..b]), h + 1, nodes[a].key, TopOf(nodes, b))
    ensures nodes[a].key < TopOf(nodes, b)
  {
    hide *;
    RowSizes(m, nodes, trees, h);
    var seps, kids := Keys(nodes[a + 1..b]), trees[a..b];
    KeysIncrease(m, nodes, trees, h);
    PackedSeps(nodes, a, b, seps);
    forall i | 0 <= i < |kids| ensures WF(m, kids[i], h, Low(seps, nodes[a].key, i), High(seps, TopOf(nodes, b), i)) {
      PackedKid(m, nodes, trees, h, a, b, i, seps);
    }
    InnerFromKids(m, Inner(id, seps, kids), h + 1, nodes[a].key, TopOf(nodes, b));
  }

  lemma InnerFromKids(m: Limits, t: Tree, h: nat, lo: int, hi: int)
    requires t.Inner? && h > 0 && |t.seps| <= m.inner && |t.kids| == |t.seps| + 1 && Increasing(t.seps)
    requires forall s :: s in t.seps ==> lo < s < hi
    requires forall i :: 0 <= i < |t.kids| ==> WF(m, t.kids[i], h - 1, Low(t.seps, lo, i), High(t.seps, hi, i)) == true
    ensures WF(m, t, h, lo, hi)
  {
  }

  /** Keys of a row increase and stay below the end. */
  ghost predicate KeyOrder(nodes: seq<Cell<PageId>>) {
    && (forall i, j :: 0 <= i < j < |nodes| ==> nodes[i].key < nodes[j].key)
    && forall i :: 0 <= i < |nodes| ==> nodes[i].key < HIGHEST
  }

  lemma PackedSeps(nodes: seq<Cell<PageId>>, a: nat, b: nat, seps: seq<int>)
    requires a < b <= |nodes| && KeyOrder(nodes) && seps == Keys(nodes[a + 1..b])
    ensures Increasing(seps) && nodes[a].key < TopOf(nodes, b)
    ensures forall s :: s in seps ==> nodes[a].key < s < TopOf(nodes, b)
  {
    assert forall i :: 0 <= i < |seps| ==> seps[i] == nodes[a + 1 + i].key;
  }

  lemma PackedKid(m: Limits, nodes: seq<Cell<PageId>>, trees: seq<Tree>, h: nat, a: nat, b: nat, i: nat, seps: seq<int>)
    requires Row(m, nodes, trees, h, HIGHEST) && a < b <= |nodes| == |trees| && i < b - a
    requires seps == Keys(nodes[a + 1..b])
    ensures WF(m, trees[a..b][i], h, Low(seps, nodes[a].key, i), High(seps, TopOf(nodes, b), i))
  {
    hide WF;
    hide Row;
    RowTree(m, nodes, trees, h, a + i);
  }

  lemma RowSizes(m: Limits, nodes: seq<Cell<PageId>>, trees: seq<Tree>, h: nat)
    requires Row(m, nodes, trees, h, HIGHEST)
    ensures |nodes| == |trees|
  {
  }

  lemma RowTree(m: Limits, nodes: seq<Cell<PageId>>, trees: seq<Tree>, h: nat, k: nat)
    requires Row(m, nodes, trees, h, HIGHEST) && k < |nodes|
    ensures WF(m, trees[k], h, nodes[k].key, TopOf(nodes, k + 1))
  {
    hide WF;
    var all := Keys(nodes)[1..];
    assert WF(m, trees[k], h, Low(all, nodes[0].key, k), High(all, HIGHEST, k));
  }

  lemma KeysIncrease(m: Limits, nodes: seq<Cell<PageId>>, trees: seq<Tree>, h: nat)
    requires Row(m, nodes, trees, h, HIGHEST) && nodes[0].key < HIGHEST
    ensures KeyOrder(nodes)
  {
    hide WF;
    var seps := Keys(nodes)[1..];
    assert forall i :: 0 < i < |nodes| ==> nodes[i].key == seps[i - 1] && seps[i - 1] in seps;
  }

  lemma PackedPage(nodes: seq<Cell<PageId>>, trees: seq<Tree>, a: nat, b: nat)
    requires |nodes| == |trees| && (forall k :: 0 <= k < |nodes| ==> nodes[k].val == trees[k].id) && a < b <= |nodes|
    ensures InnerPage(Keys(nodes[a + 1..b]), trees[a..b]) == InnerNode(nodes[a].val, nodes[a + 1..b])
  {
    var seps, kids := Keys(nodes[a + 1..b]), trees[a..b];
    forall i | 0 <= i < |seps| ensures Cell(seps[i], kids[i + 1].id) == nodes[a + 1..b][i] {
    }
    assert InnerPage(seps, kids).cells == nodes[a + 1..b];
  }

  /** Putting a new parent over neighbouring trees of a forest. */
  lemma ForestPacks(before: map<PageId, Node>, after: map<PageId, Node>, id: PageId, seps: seq<int>,
                    l: seq<Tree>, mid: seq<Tree>, r: seq<Tree>, entries: seq<Cell<Rid>>)
    requires Forest(before, l + mid + r, entries) && |mid| == |seps| + 1 && (forall p :: p in before ==> p < id)
    requires after == before[id := InnerPage(seps, mid)]
    ensures Forest(after, l + [Inner(id, seps, mid)] + r, entries)
  {
    hide Rep;
    hide Distinct;
    hide Chain;
    hide Ids;
    var ts, n := l + mid + r, Inner(id, seps, mid);
    var us := l + [n] + r;
    FlatAppend(l + mid, r);
    FlatAppend(l, mid);
    FlatAppend(l + [n], r);
    FlatAppend(l, [n]);
    FlatOne(n);
    forall k | 0 <= k < |ts| ensures Ids(ts[k]) <= before.Keys {
      RepIds(before, ts[k]);
    }
    KidsFramed(before, after, ts, None);
    assert forall k :: 0 <= k < |mid| ==> mid[k] == ts[|l| + k];
    InnerStored(after, id, seps, mid);
    forall k | 0 <= k < |us| ensures Rep(after, us[k]) && Distinct(us[k]) {
      assert us[k] == if k < |l| then ts[k] else if k == |l| then n else ts[k + |mid| - 1];
    }
    PackedApart(id, seps, l, mid, r);
  }

  lemma PackedApart(id: PageId, seps: seq<int>, l: seq<Tree>, mid: seq<Tree>, r: seq<Tree>)
    requires Apart(l + mid + r) && forall k :: 0 <= k < |l + mid + r| ==> id !in Ids((l + mid + r)[k])
    ensures Apart(l + [Inner(id, seps, mid)] + r)
  {
    var ts, n := l + mid + r, Inner(id, seps, mid);
    var us := l + [n] + r;
    forall k | 0 <= k < |us| && k != |l| ensures Ids(us[k]) !! Ids(n) {
      var j := if k < |l| then k else k + |mid| - 1;
      assert us[k] == ts[j];
      forall i | 0 <= i < |mid| ensures Ids(us[k]) !! Ids(mid[i]) {
        assert mid[i] == ts[|l| + i];
        assert if j < |l| + i then Ids(ts[j]) !! Ids(ts[|l| + i]) else Ids(ts[|l| + i]) !! Ids(ts[j]);
      }
    }
    forall i, j | 0 <= i < j < |us| ensures Ids(us[i]) !! Ids(us[j]) {
      if i != |l| && j != |l| {
        var a, b := if i < |l| then i else i + |mid| - 1, if j < |l| then j else j + |mid| - 1;
        assert us[i] == ts[a] && us[j] == ts[b] && Ids(ts[a]) !! Ids(ts[b]);
      }
    }
  }

  ghost predicate AllLeaves(ts: seq<Tree>) {
    forall k :: 0 <= k < |ts| ==> ts[k].Leaf?
  }

  lemma {:induction false} LeavesOfLeaves(ts: seq<Tree>)
    requires AllLeaves(ts)
    ensures |LeavesAll(ts)| == |ts| && forall k :: 0 <= k < |ts| ==> LeavesAll(ts)[k] == ts[k].id
  {
    if ts != [] {
      LeavesOfLeaves(ts[1..]);
    }
  }

  /** A new rightmost leaf, linked from the one before it. */
  lemma ForestGainsLeaf(before: map<PageId, Node>, after: map<PageId, Node>, ts: seq<Tree>, id: PageId,
                        rows: seq<Cell<Rid>>, entries: seq<Cell<Rid>>)
    requires Forest(before, ts, entries) && AllLeaves(ts) && (forall p :: p in before ==> p < id)
    requires id in after && after[id] == LeafNode(None, rows)
    requires forall k :: 0 <= k < |ts| ==> ts[k].id in before && ts[k].id in after && before[ts[k].id].LeafNode?
    requires forall k :: 0 <= k < |ts| - 1 ==> after[ts[k].id] == before[ts[k].id]
    requires ts != [] ==> var p := ts[|ts| - 1].id; after[p] == LeafNode(Some(id), before[p].rows)
    ensures Forest(after, ts + [Leaf(id, rows)], entries + rows)
  {
    var n := Leaf(id, rows);
    var us := ts + [n];
    FlatAppend(ts, [n]);
    FlatOne(n);
    LeavesOfLeaves(ts);
    LeavesOfLeaves(us);
    var ls := LeavesAll(us);
    forall k | 0 <= k < |us| ensures Rep(after, us[k]) && Distinct(us[k]) && Link(after, ls[k], NextOf(ls, k, None)) {
      if k < |ts| {
        assert Link(before, LeavesAll(ts)[k], NextOf(LeavesAll(ts), k, None));
      }
    }
  }

  lemma {:induction false} WFWiden(m: Limits, t: Tree, h: nat, lo: int, hi: int, low: int)
    requires WF(m, t, h, lo, hi) && low <= lo
    ensures WF(m, t, h, low, hi)
    decreases t
  {
    if t.Inner? {
      WFWiden(m, t.kids[0], h - 1, lo, High(t.seps, hi, 0), low);
      forall i | 0 <= i < |t.kids| ensures WF(m, t.kids[i], h - 1, Low(t.seps, low, i), High(t.seps, hi, i)) {
        assert WF(m, t.kids[i], h - 1, Low(t.seps, lo, i), High(t.seps, hi, i));
      }
    }
  }

  /** A level of one node is a finished index. */
  lemma LastLevel(m: Limits, pages: map<PageId, Node>, node: Cell<PageId>, trees: seq<Tree>, h: nat,
    entries: seq<Cell<Rid>>)
    requires Level(m, pages, [node], trees, h, HIGHEST, entries) && LOWEST <= node.key
    ensures Stored(m, pages, trees[0], h) && trees[0].id == node.val && Flat(trees[0]) == entries
  {
    assert trees == [trees[0]];
    FlatOne(trees[0]);
    WFWiden(m, trees[0], h, node.key, HIGHEST, LOWEST);
  }

  /** A run of the sorted entries makes a leaf of its own. */
  lemma LeafChunk(m: Limits, entries: seq<Cell<Rid>>, a: nat, b: nat, id: PageId)
    requires Sorted(entries) && a < b <= |entries| && b - a <= m.leaf && forall c :: c in entries ==> c.key < HIGHEST
    ensures WF(m, Leaf(id, entries[a..b]), 0, entries[a].key, TopOf(entries, b)) && entries[a].key < TopOf(entries, b)
    ensures entries[..a] + entries[a..b] == entries[..b]
  {
    assert entries[a] in entries;
    forall k | a <= k < b ensures entries[a].key <= entries[k].key < TopOf(entries, b) {
      assert entries[k] in entries;
    }
    HalfOk(m, id, entries, a, b, entries[a].key, TopOf(entries, b));
  }

  /** The nodes packed so far of a new level. */
  ghost predicate RowOrNone(m: Limits, nodes: seq<Cell<PageId>>, trees: seq<Tree>, h: nat, first: int, top: int) {
    if nodes == [] then trees == [] && top == first
    else Row(m, nodes, trees, h, top) && nodes[0].key == first < top
  }

  lemma RowGrows(m: Limits, nodes: seq<Cell<PageId>>, trees: seq<Tree>, h: nat, first: int, key: int, t: Tree, hi: int)
    requires RowOrNone(m, nodes, trees, h, first, key) && WF(m, t, h, key, hi) && key < hi
    ensures RowOrNone(m, nodes + [Cell(key, t.id)], trees + [t], h, first, hi)
  {
    RowAppend(m, nodes, trees, h, key, t, hi);
  }

  lemma LevelSizes(m: Limits, pages: map<PageId, Node>, nodes: seq<Cell<PageId>>, trees: seq<Tree>, h: nat, hi: int,
                   entries: seq<Cell<Rid>>)
    requires Level(m, pages, nodes, trees, h, hi, entries)
    ensures |nodes| == |trees| > 0 && Row(m, nodes, trees, h, hi) && Forest(pages, [] + trees[0..], entries)
    ensures forall k :: 0 <= k < |nodes| ==> nodes[k].val == trees[k].id
  {
    assert [] + trees[0..] == trees;
  }

  /** One parent packed over the run `a..b` of the level below. */
  lemma LevelStep(m: Limits, before: map<PageId, Node>, after: map<PageId, Node>, id: PageId,
                  nodes: seq<Cell<PageId>>, trees: seq<Tree>, h: nat, done: seq<Cell<PageId>>, ups: seq<Tree>,
                  a: nat, b: nat, entries: seq<Cell<Rid>>, n: Tree)
    requires Row(m, nodes, trees, h, HIGHEST) && a < b <= |nodes| == |trees| && b - a - 1 <= m.inner
    requires nodes[0].key < HIGHEST && RowOrNone(m, done, ups, h + 1, nodes[0].key, nodes[a].key)
    requires Forest(before, ups + trees[a..], entries) && (forall p :: p in before ==> p < id)
    requires forall k :: 0 <= k < |nodes| ==> nodes[k].val == trees[k].id
    requires after == before[id := InnerNode(nodes[a].val, nodes[a + 1..b])]
    requires n == Inner(id, Keys(nodes[a + 1..b]), trees[a..b])
    ensures RowOrNone(m, done + [Cell(nodes[a].key, id)], ups + [n], h + 1, nodes[0].key, TopOf(nodes, b))
    ensures Forest(after, (ups + [n]) + trees[b..], entries)
  {
    hide *;
    PackedWF(m, nodes, trees, h, a, b, id);
    RowGrows(m, done, ups, h + 1, nodes[0].key, nodes[a].key, n, TopOf(nodes, b));
    PackedPage(nodes, trees, a, b);
    assert ups + trees[a..] == ups + trees[a..b] + trees[b..];
    ForestPacks(before, after, id, n.seps, ups, trees[a..b], trees[b..], entries);
  }

  lemma LeafStep(m: Limits, before: map<PageId, Node>, after: map<PageId, Node>, id: PageId, entries: seq<Cell<Rid>>,
                 leaves: seq<Cell<PageId>>, trees: seq<Tree>, a: nat, b: nat)
    requires Sorted(entries) && a < b <= |entries| && b - a <= m.leaf && forall c :: c in entries ==> c.key < HIGHEST
    requires RowOrNone(m, leaves, trees, 0, entries[0].key, entries[a].key) && |leaves| == |trees|
    requires Forest(before, trees, entries[..a]) && AllLeaves(trees) && (forall p :: p in before ==> p < id)
    requires id in after && after[id] == LeafNode(None, entries[a..b])
    requires forall k :: 0 <= k < |trees| ==>
      trees[k].id in before && trees[k].id in after && before[trees[k].id].LeafNode?
    requires forall k :: 0 <= k < |trees| - 1 ==> after[trees[k].id] == before[trees[k].id]
    requires trees != [] ==> var p := trees[|trees| - 1].id; after[p] == LeafNode(Some(id), before[p].rows)
    ensures RowOrNone(m, leaves + [Cell(entries[a].key, id)], trees + [Leaf(id, entries[a..b])], 0,
                      entries[0].key, TopOf(entries, b))
    ensures Forest(after, trees + [Leaf(id, entries[a..b])], entries[..b]) &&
      AllLeaves(trees + [Leaf(id, entries[a..b])])
  {
    hide Forest;
    hide WF;
    hide Row;
    LeafChunk(m, entries, a, b, id);
    RowGrows(m, leaves, trees, 0, entries[0].key, entries[a].key, Leaf(id, entries[a..b]), TopOf(entries, b));
    ForestGainsLeaf(before, after, trees, id, entries[a..b], entries[..a]);
  }

  lemma NothingYet(pages: map<PageId, Node>)
    ensures Forest(pages, [], [])
  {
  }

  lemma LeafPages(pages: map<PageId, Node>, ts: seq<Tree>, entries: seq<Cell<Rid>>)
    requires Forest(pages, ts, entries) && AllLeaves(ts)
    ensures forall k :: 0 <= k < |ts| ==> ts[k].id in pages && pages[ts[k].id].LeafNode?
    ensures forall i, j :: 0 <= i < j < |ts| ==> ts[i].id != ts[j].id
  {
    forall i, j | 0 <= i < j < |ts| ensures ts[i].id != ts[j].id {
      assert Ids(ts[i]) !! Ids(ts[j]) && ts[i].id in Ids(ts[i]) && ts[j].id in Ids(ts[j]);
    }
  }
}
