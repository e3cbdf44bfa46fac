/** The index object: insert, delete and ordered reads over mutable pages. */
module BTreeIndex {
  import opened Common
  import opened BTreeShape
  import opened BTree
  import opened BTreeBulk
  import opened BTreeReads

  /** What an index scan is asked for. */
  datatype Range = Eq(key: int) | Between(low: int, high: int) {
    function Start(): int {
      if Eq? then key else low
    }

    function End(): int {
      if Eq? then key else high
    }

    predicate PastUpper(k: int) {
      if Eq? then k != key else k > high
    }
  }

  class Index {
    var pages: map<PageId, Node>
    var nextPage: PageId
    const width: nat

    /** How many entries of this width a page takes. */
    ghost const lim: Limits

    ghost predicate Valid()
      reads this
    {
      width <= MAX_KEY_LEN && lim == LimitsFor(width) && forall p :: p in pages ==> p < nextPage
    }

    /** The pages hold an index whose contents in key order are `Flat(t)`. */
    ghost predicate Holds(t: Tree, h: nat)
      reads this
    {
      Valid() && Stored(lim, pages, t, h)
    }

    /** A new index: one empty leaf. */
    constructor (keyWidth: nat)
      requires keyWidth <= MAX_KEY_LEN
      ensures Valid() && width == keyWidth && pages == map[0 := LeafNode(None, [])]
      ensures Holds(Leaf(0, []), 0)
    {
      pages := map[0 := LeafNode(None, [])];
      nextPage := 1;
      width := keyWidth;
      lim := LimitsFor(keyWidth);
      LimitsPositive(keyWidth);
    }

    method NewPage(n: Node) returns (id: PageId)
      requires Valid()
      modifies this`pages, this`nextPage
      ensures Valid() && id == old(nextPage) && nextPage == id + 1
      ensures pages == old(pages)[id := n]
    {
      id := nextPage;
      nextPage := nextPage + 1;
      pages := pages[id := n];
    }

    /** Inserts below `node`. The ghost trees say what the subtree became. */
    method InsertRecursive(node: PageId, key: int, rid: Rid,
                           ghost t: Tree, ghost h: nat, ghost lo: int, ghost hi: int, ghost last: Option<PageId>)
      returns (out: Outcome, ghost ts: seq<Tree>)
      requires Valid() && node == t.id
      requires Ready(lim, pages, t, h, lo, hi, last, Cell(key, rid))
      modifies this`pages, this`nextPage
      ensures Valid()
      ensures Done(lim, old(pages), old(nextPage), pages, nextPage, t, h, lo, hi, last, Cell(key, rid), out, ts)
      decreases h
    {
      RepIds(pages, t);
      if pages[node].LeafNode? {
        out, ts := InsertLeaf(node, key, rid, t, lo, hi, last);
      } else {
        out, ts := InsertInner(node, key, rid, t, h, lo, hi, last);
      }
    }

    method InsertLeaf(node: PageId, key: int, rid: Rid,
                      ghost t: Tree, ghost lo: int, ghost hi: int, ghost last: Option<PageId>)
      returns (out: Outcome, ghost ts: seq<Tree>)
      requires Valid() && node == t.id && t.Leaf?
      requires Ready(lim, pages, t, 0, lo, hi, last, Cell(key, rid))
      modifies this`pages, this`nextPage
      ensures Valid()
      ensures Done(lim, old(pages), old(nextPage), pages, nextPage, t, 0, lo, hi, last, Cell(key, rid), out, ts)
    {
      hide Done;
      var page := pages[node];
      var rows := page.rows;
      assert Link(pages, Leaves(t)[0], NextOf(Leaves(t), 0, last));
      var slot := 0;
      while slot < |rows|
        invariant 0 <= slot <= |rows| && Cell(key, rid) !in rows[..slot]
      {
        if rows[slot].val == rid && rows[slot].key == key {
          LeafUnchanged(lim, pages, nextPage, t, lo, hi, last, rows[slot]);
          out, ts := Fit, [t];
          return;
        }
        slot := slot + 1;
      }
      assert rows[..|rows|] == rows;
      out, ts := AddRow(node, key, rid, t, lo, hi, last);
    }

    /** Adds an entry that the leaf does not hold yet, over two pages when it does not fit on one. */
    method AddRow(node: PageId, key: int, rid: Rid,
                  ghost t: Tree, ghost lo: int, ghost hi: int, ghost last: Option<PageId>)
      returns (out: Outcome, ghost ts: seq<Tree>)
      requires Valid() && node == t.id && t.Leaf? && node in pages && pages[node] == LeafNode(last, t.rows)
      requires WF(lim, t, 0, lo, hi) && lo <= key < hi && forall r :: r in t.rows ==> r.key != key
      modifies this`pages, this`nextPage
      ensures Valid()
      ensures Done(lim, old(pages), old(nextPage), pages, nextPage, t, 0, lo, hi, last, Cell(key, rid), out, ts)
    {
      hide Done;
      hide WF;
      hide Position;
      hide Keys;
      hide Sorted;
      hide Added;
      var page := pages[node];
      ghost var before: map<PageId, Node> := pages;
      ghost var first: PageId := nextPage;
      LeafRoom(lim, t, lo, hi);
      LeafGains(page.rows, Cell(key, rid));
      HasRoomIff(|page.rows|, LeafEntryLen(width));
      LimitsPositive(width);
      var all := InsertSorted(page.rows, key, rid);
      if HasRoom(|page.rows|, LeafEntryLen(width)) {
        LeafFits(lim, pages, nextPage, t, lo, hi, last, Cell(key, rid), all);
        pages := pages[node := LeafNode(page.next, all)];
        out, ts := Fit, [Leaf(node, all)];
      } else {
        var mid := |all| / 2;
        var right := NewPage(LeafNode(page.next, all[mid..]));
        pages := pages[node := LeafNode(Some(right), all[..mid])];
        ghost var l, r := Leaf(node, all[..mid]), Leaf(right, all[mid..]);
        LeafSplits(lim, before, first, pages, t, lo, hi, last, Cell(key, rid), all, mid, l, r);
        out, ts := Split(all[mid].key, right), [l, r];
      }
    }

    method InsertInner(node: PageId, key: int, rid: Rid,
                       ghost t: Tree, ghost h: nat, ghost lo: int, ghost hi: int, ghost last: Option<PageId>)
      returns (out: Outcome, ghost ts: seq<Tree>)
      requires Valid() && node == t.id && t.Inner?
      requires Ready(lim, pages, t, h, lo, hi, last, Cell(key, rid))
      modifies this`pages, this`nextPage
      ensures Valid()
      ensures Done(lim, old(pages), old(nextPage), pages, nextPage, t, h, lo, hi, last, Cell(key, rid), out, ts)
      decreases h, 0
    {
      hide Ready;
      hide Done;
      hide Absorbable;
      hide Absorbed;
      ghost var c := Cell(key, rid);
      ChildReady(lim, pages, t, h, lo, hi, last, c);
      var page := pages[node];
      var at := RightmostLe(page.cells, key);
      var child := match at case None => page.p0 case Some(i) => page.cells[i].val;
      ghost var i := Position(t.seps, key);
      assert Keys(page.cells) == t.seps;
      ghost var before, first := pages, nextPage;
      var inner, kids := InsertRecursive(child, key, rid, t.kids[i], h - 1, Low(t.seps, lo, i), High(t.seps, hi, i),
                                         LeafAfter(t, i, last));
      NodeKept(lim, before, first, pages, nextPage, t, h, lo, hi, last, c, i, inner, kids);
      ChildAbsorbable(lim, before, first, pages, nextPage, t, h, lo, hi, last, c, i, inner, kids);
      ghost var mid, midNext := pages, nextPage;
      out, ts := Absorb(node, inner, t, h, lo, hi, i, kids, last);
      ParentDone(lim, before, first, mid, midNext, pages, nextPage, t, h, lo, hi, last, c, i, inner, kids, out, ts);
    }

    /** The parent takes in the outcome of its child `i`: nothing, or one more entry. */
    method Absorb(node: PageId, inner: Outcome, ghost t: Tree, ghost h: nat, ghost lo: int, ghost hi: int,
                  ghost i: nat, ghost kids: seq<Tree>, ghost last: Option<PageId>)
      returns (out: Outcome, ghost ts: seq<Tree>)
      requires Valid() && node == t.id && node in pages && t.Inner? && i < |t.kids|
      requires |t.kids| == |t.seps| + 1 && |t.seps| <= lim.inner
      requires pages[node] == InnerPage(t.seps, t.kids)
      requires |kids| == (if inner.Fit? then 1 else 2) && kids[0].id == t.kids[i].id
      requires inner.Split? ==> inner.right == kids[1].id && Position(t.seps, inner.sep) == i
      requires Absorbable(lim, pages, nextPage, node, NewSeps(t.seps, i, inner), NewKids(t.kids, i, kids), h, lo, hi,
        last)
      modifies this`pages, this`nextPage
      ensures Valid()
      ensures Absorbed(lim, old(pages), old(nextPage), pages, nextPage, node, NewKids(t.kids, i, kids), h, lo, hi, last,
                       out, ts)
    {
      hide Absorbable;
      hide Absorbed;
      ghost var seps, all := NewSeps(t.seps, i, inner), NewKids(t.kids, i, kids);
      if inner.Fit? {
        assert kids == [kids[0]];
        InnerPageSame(t, i, kids[0]);
        assert pages[node := InnerPage(seps, all)] == pages;
        AbsorbFits(lim, pages, nextPage, pages, node, seps, all, h, lo, hi, last);
        out, ts := Fit, [Inner(node, seps, all)];
      } else {
        var page := pages[node];
        assert Keys(page.cells) == t.seps;
        InnerPageAdds(t, i, inner, kids);
        var cells := InsertSorted(page.cells, inner.sep, inner.right);
        out, ts := Refill(node, page.p0, cells, seps, all, h, lo, hi, last);
      }
    }

    /** Writes an inner page's new entries, over two pages when they do not fit on one. */
    method Refill(node: PageId, p0: PageId, cells: seq<Cell<PageId>>, ghost seps: seq<int>, ghost all: seq<Tree>,
                  ghost h: nat, ghost lo: int, ghost hi: int, ghost last: Option<PageId>)
      returns (out: Outcome, ghost ts: seq<Tree>)
      requires Valid() && node in pages && 0 < |cells| <= lim.inner + 1 && |all| == |seps| + 1
      requires InnerNode(p0, cells) == InnerPage(seps, all)
      requires Absorbable(lim, pages, nextPage, node, seps, all, h, lo, hi, last)
      modifies this`pages, this`nextPage
      ensures Valid()
      ensures Absorbed(lim, old(pages), old(nextPage), pages, nextPage, node, all, h, lo, hi, last, out, ts)
    {
      hide Absorbable;
      hide Absorbed;
      HasRoomIff(|cells| - 1, InnerEntryLen(width));
      LimitsPositive(width);
      ghost var before: map<PageId, Node> := pages;
      ghost var first: PageId := nextPage;
      if HasRoom(|cells| - 1, InnerEntryLen(width)) {
        pages := pages[node := InnerNode(p0, cells)];
        AbsorbFits(lim, before, first, pages, node, seps, all, h, lo, hi, last);
        out, ts := Fit, [Inner(node, seps, all)];
      } else {
        var mid := |cells| / 2;
        InnerPageCut(seps, all, mid);
        var right := NewPage(InnerNode(cells[mid].val, cells[mid + 1..]));
        pages := pages[node := InnerNode(p0, cells[..mid])];
        ghost var l, r := Inner(node, seps[..mid], all[..mid + 1]), Inner(right, seps[mid + 1..], all[mid + 1..]);
        AbsorbSplits(lim, before, first, pages, node, seps, all, h, lo, hi, last, mid, l, r);
        out, ts := Split(cells[mid].key, right), [l, r];
      }
    }

    /** Inserts an entry; the root changes when it splits. As a map, the index gains exactly this key. */
    method Insert(root: PageId, key: int, rid: Rid, ghost t: Tree, ghost h: nat)
      returns (newRoot: PageId, ghost u: Tree, ghost g: nat)
      requires Holds(t, h) && root == t.id && LOWEST <= key < HIGHEST
      requires key in AsMap(Flat(t)) ==> AsMap(Flat(t))[key] == rid
      modifies this`pages, this`nextPage
      ensures Holds(u, g) && newRoot == u.id
      ensures Added(Flat(t), Flat(u), Cell(key, rid)) && AsMap(Flat(u)) == AsMap(Flat(t))[key := rid]
    {
      hide Ready;
      hide Done;
      hide Stored;
      hide AsMap;
      LimitsPositive(width);
      ghost var c := Cell(key, rid);
      ReadyAtRoot(lim, pages, t, h, c);
      ghost var before, first := pages, nextPage;
      var outcome, ts := InsertRecursive(root, key, rid, t, h, LOWEST, HIGHEST, None);
      match outcome {
        case Fit =>
          RootKept(lim, before, first, pages, nextPage, t, h, c, ts);
          newRoot, u, g := root, ts[0], h;
        case Split(sep, right) =>
          ghost var mid, next := pages, nextPage;
          newRoot := NewPage(InnerNode(root, [Cell(sep, right)]));
          RootGrown(lim, before, first, mid, next, t, h, c, sep, right, ts, pages);
          u, g := Inner(newRoot, [sep], ts), h + 1;
      }
      StoredAddsOne(lim, before, pages, t, h, u, g, c);
    }

    method DescendToLeaf(root: PageId, key: int, ghost t: Tree, ghost h: nat) returns (leaf: PageId)
      requires Holds(t, h) && root == t.id && LOWEST <= key < HIGHEST
      ensures Whole(t) && leaf == LeafFor(t, key).id
    {
      WFWhole(lim, t, h, LOWEST, HIGHEST);
      hide Stored;
      hide WF;
      var current := root;
      ghost var at := t;
      while true
        invariant current == at.id && Rep(pages, at) && Whole(at) && LeafFor(at, key) == LeafFor(t, key)
        decreases at
      {
        match pages[current] {
          case LeafNode(_, _) =>
            return current;
          case InnerNode(p0, cells) =>
            var slot := RightmostLe(cells, key);
            var next := match slot case None => p0 case Some(i) => cells[i].val;
            ghost var i := Position(at.seps, key);
            assert Keys(cells) == at.seps;
            current, at := next, at.kids[i];
        }
      }
    }

    /** All rows stored under `key`: for distinct keys, the row the map holds, or none. */
    method LookupEq(root: PageId, key: int, ghost t: Tree, ghost h: nat) returns (rids: seq<Rid>)
      requires Holds(t, h) && root == t.id && LOWEST <= key < HIGHEST
      ensures rids == if key in AsMap(Flat(t)) then [AsMap(Flat(t))[key]] else []
    {
      var id := DescendToLeaf(root, key, t, h);
      ghost var a, b := SearchDivides(lim, pages, t, h, LOWEST, HIGHEST, key);
      ghost var leaf := LeafFor(t, key);
      assert pages[id].LeafNode? && pages[id].rows == leaf.rows;
      rids := LeafLookupEq(pages[id].rows, key);
      OnlyInLeaf(Flat(t), RowsOf(pages, a), leaf.rows, RowsOf(pages, b), key);
      FlatOrdered(lim, t, h, LOWEST, HIGHEST);
      LookupIsMap(Flat(t), leaf.rows, key);
    }

    /** Drops one entry from its leaf; no page is merged or freed. */
    method Delete(root: PageId, key: int, rid: Rid, ghost t: Tree, ghost h: nat) returns (removed: bool, ghost u: Tree)
      requires Holds(t, h) && root == t.id && LOWEST <= key < HIGHEST
      modifies this`pages
      ensures Holds(u, h) && root == u.id && Dropped(Flat(t), Flat(u), Cell(key, rid))
      ensures removed <==> Cell(key, rid) in Flat(t)
      ensures if removed then AsMap(Flat(u)) == AsMap(Flat(t)) - {key} else pages == old(pages) && u == t
    {
      var c := Cell(key, rid);
      var id := DescendToLeaf(root, key, t, h);
      ghost var a, b := SearchDivides(lim, pages, t, h, LOWEST, HIGHEST, key);
      ghost var leaf := LeafFor(t, key);
      var page := pages[id];
      var rows;
      removed, rows := WithoutEntry(page.rows, c);
      OnlyInLeaf(Flat(t), RowsOf(pages, a), leaf.rows, RowsOf(pages, b), key);
      hide Stored;
      hide AsMap;
      if removed {
        ghost var before := pages;
        pages := pages[id := LeafNode(page.next, rows)];
        u := DeleteStored(lim, before, nextPage, pages, t, h, c, rows);
      } else {
        u := t;
      }
    }

    /** The first entry whose key is at least `key`. */
    method FirstGe(root: PageId, key: int, ghost t: Tree, ghost h: nat) returns (cursor: Option<Cursor>)
      requires Holds(t, h) && root == t.id && LOWEST <= key < HIGHEST
      ensures Stands(pages, Leaves(t), cursor, FromKey(Flat(t), key))
    {
      hide Stored;
      hide WF;
      hide Rep;
      hide Leaves;
      hide Flat;
      hide LeafFor;
      hide FromKey;
      hide RestAt;
      hide RowsOf;
      var page := DescendToLeaf(root, key, t, h);
      ghost var ls := Leaves(t);
      ghost var m := SearchStart(lim, pages, t, h, key);
      while true
        invariant m < |ls| && ls[m] == page
        invariant FromKey(RestAt(pages, ls, m, 0), key) == FromKey(Flat(t), key)
        decreases |ls| - m
      {
        LeafInChain(lim, pages, t, h, m);
        var rows := pages[page].rows;
        var slot := 0;
        while slot < |rows|
          invariant 0 <= slot <= |rows|
          invariant FromKey(RestAt(pages, ls, m, slot), key) == FromKey(Flat(t), key)
        {
          RestUnfolds(pages, ls, m, slot);
          FromKeyStep(RestAt(pages, ls, m, slot), rows[slot], RestAt(pages, ls, m, slot + 1), key);
          if rows[slot].key >= key {
            StandsAt(pages, ls, m, slot);
            return Some(Cursor(page, slot));
          }
          slot := slot + 1;
        }
        RestUnfolds(pages, ls, m, slot);
        match pages[page].next {
          case None =>
            FromNothing(key);
            return None;
          case Some(next) =>
            page, m := next, m + 1;
        }
      }
    }

    /** The entry at a cursor, if any is left, and the cursor behind it. */
    method ReadAt(cursor: Cursor, ghost t: Tree, ghost h: nat, ghost rest: seq<Cell<Rid>>)
      returns (entry: Option<Cell<Rid>>, next: Option<Cursor>)
      requires Holds(t, h) && Stands(pages, Leaves(t), Some(cursor), rest)
      ensures rest == [] ==> entry == None
      ensures rest != [] ==> entry == Some(rest[0]) && Stands(pages, Leaves(t), next, rest[1..])
    {
      hide Stored;
      var page, slot: nat := cursor.page, cursor.slot;
      ghost var ls := Leaves(t);
      ghost var m: nat :| m < |ls| && ls[m] == page && slot <= |RowsAt(pages, ls[m])| &&
        rest == RestAt(pages, ls, m, slot);
      while true
        invariant m < |ls| && ls[m] == page && slot <= |RowsAt(pages, page)| && rest == RestAt(pages, ls, m, slot)
        decreases |ls| - m
      {
        LeafInChain(lim, pages, t, h, m);
        RestUnfolds(pages, ls, m, slot);
        var rows := pages[page].rows;
        if slot < |rows| {
          entry := Some(rows[slot]);
          RestUnfolds(pages, ls, m, slot + 1);
          if slot + 1 < |rows| {
            StandsAt(pages, ls, m, slot + 1);
            next := Some(Cursor(page, slot + 1));
          } else {
            match pages[page].next {
              case None =>
                next := None;
              case Some(right) =>
                StandsAt(pages, ls, m + 1, 0);
                next := Some(Cursor(right, 0));
            }
          }
          return;
        }
        match pages[page].next {
          case None =>
            entry, next := None, None;
            return;
          case Some(right) =>
            page, slot, m := right, 0, m + 1;
        }
      }
    }

    /** An index scan returns exactly the rows with keys in its range, in key order. */
    method Scan(root: PageId, range: Range, ghost t: Tree, ghost h: nat) returns (out: seq<Cell<Rid>>)
      requires Holds(t, h) && root == t.id && LOWEST <= range.Start() < HIGHEST
      ensures out == InRange(Flat(t), range.Start(), range.End())
    {
      hide Stored;
      hide Ahead;
      hide InRange;
      hide FromKey;
      hide Flat;
      hide Leaves;
      ghost var low, high := range.Start(), range.End();
      var cursor := FirstGe(root, range.Start(), t, h);
      ScanStart(lim, pages, t, h, low, high);
      ghost var rest := FromKey(Flat(t), low);
      out := [];
      while cursor.Some?
        invariant Stands(pages, Leaves(t), cursor, rest) && Ahead(rest, low)
        invariant out + InRange(rest, low, high) == InRange(Flat(t), low, high)
        decreases |rest|, cursor
      {
        var entry, next := ReadAt(cursor.value, t, h, rest);
        match entry {
          case None =>
            return;
          case Some(c) =>
            ScanStep(rest, low, high);
            if range.PastUpper(c.key) {
              return;
            }
            out := out + [c];
            cursor, rest := next, rest[1..];
        }
      }
    }

    /** Packs sorted entries into chained leaves and stacks parents on them until one root is left. */
    method BulkBuild(entries: seq<Cell<Rid>>) returns (root: PageId, ghost t: Tree, ghost h: nat)
      requires Valid() && Sorted(entries) && forall c :: c in entries ==> LOWEST <= c.key < HIGHEST
      modifies this`pages, this`nextPage
      ensures Holds(t, h) && root == t.id && Flat(t) == entries
      ensures forall p :: p in old(pages) ==> p in pages && pages[p] == old(pages)[p]
    {
      if entries == [] {
        root := NewPage(LeafNode(None, []));
        t, h := Leaf(root, []), 0;
        return;
      }
      hide Level;
      assert entries[0] in entries;
      var current, trees := BuildLeaves(entries);
      h := 0;
      while |current| > 1
        invariant Valid() && |current| > 0 && current[0].key == entries[0].key
        invariant Level(lim, pages, current, trees, h, HIGHEST, entries)
        invariant forall p :: p in old(pages) ==> p in pages && pages[p] == old(pages)[p]
        decreases |current|
      {
        current, trees := BuildLevel(current, trees, h, entries);
        h := h + 1;
      }
      assert current == [current[0]];
      LastLevel(lim, pages, current[0], trees, h, entries);
      root, t := current[0].val, trees[0];
    }

    method BuildLeaves(entries: seq<Cell<Rid>>) returns (leaves: seq<Cell<PageId>>, ghost trees: seq<Tree>)
      requires Valid() && Sorted(entries) && entries != [] && forall c :: c in entries ==> c.key < HIGHEST
      modifies this`pages, this`nextPage
      ensures Valid() && Level(lim, pages, leaves, trees, 0, HIGHEST, entries)
      ensures leaves != [] && leaves[0].key == entries[0].key
      ensures forall p :: p in old(pages) ==> p in pages && pages[p] == old(pages)[p]
    {
      hide Forest;
      hide Row;
      hide Sorted;
      leaves, trees := [], [];
      var prev := None;
      var i := 0;
      assert Forest(pages, [], entries[..0]) by {
        NothingYet(pages);
      }
      while i < |entries|
        invariant Valid() && i <= |entries| && |leaves| == |trees| && (i == 0 <==> trees == [])
        invariant Forest(pages, trees, entries[..i]) && AllLeaves(trees)
        invariant RowOrNone(lim, leaves, trees, 0, entries[0].key, TopOf(entries, i))
        invariant prev == if trees == [] then None else Some(trees[|trees| - 1].id)
        invariant forall k :: 0 <= k < |trees| ==> trees[k].id !in old(pages)
        invariant forall p :: p in old(pages) ==> p in pages && pages[p] == old(pages)[p]
      {
        var a := i;
        ghost var before: map<PageId, Node> := pages;
        LeafPages(before, trees, entries[..a]);
        var id := NewPage(LeafNode(None, []));
        var rows;
        rows, i := FillLeaf(entries, a);
        pages := pages[id := LeafNode(None, rows)];
        if prev.Some? {
          pages := pages[prev.value := LeafNode(Some(id), pages[prev.value].rows)];
        }
        LeafStep(lim, before, pages, id, entries, leaves, trees, a, i);
        prev := Some(id);
        leaves, trees := leaves + [Cell(entries[a].key, id)], trees + [Leaf(id, rows)];
      }
      assert entries[..i] == entries;
    }

    /** Takes entries from `a` on for as long as they fit on one leaf. */
    method FillLeaf(entries: seq<Cell<Rid>>, a: nat) returns (rows: seq<Cell<Rid>>, i: nat)
      requires Valid() && a < |entries|
      ensures a < i <= |entries| && rows == entries[a..i] && |rows| <= lim.leaf
    {
      LimitsPositive(width);
      rows, i := [], a;
      while i < |entries|
        invariant a <= i <= |entries| && rows == entries[a..i] && |rows| <= lim.leaf
      {
        HasRoomIff(|rows|, LeafEntryLen(width));
        if !HasRoom(|rows|, LeafEntryLen(width)) {
          break;
        }
        rows := rows + [entries[i]];
        i := i + 1;
      }
    }

    method FillInner(nodes: seq<Cell<PageId>>, a: nat) returns (cells: seq<Cell<PageId>>, j: nat)
      requires Valid() && a < |nodes|
      ensures a < j <= |nodes| && cells == nodes[a + 1..j] && |cells| <= lim.inner
      ensures a + 1 < |nodes| ==> a + 1 < j
    {
      LimitsPositive(width);
      cells, j := [], a + 1;
      while j < |nodes|
        invariant a < j <= |nodes| && cells == nodes[a + 1..j] && |cells| <= lim.inner
      {
        HasRoomIff(|cells|, InnerEntryLen(width));
        if !HasRoom(|cells|, InnerEntryLen(width)) {
          break;
        }
        cells := cells + [nodes[j]];
        j := j + 1;
      }
    }

    /** One level of parents; it is strictly shorter than the level below. */
    method BuildLevel(nodes: seq<Cell<PageId>>, ghost trees: seq<Tree>, ghost h: nat, ghost entries: seq<Cell<Rid>>)
      returns (next: seq<Cell<PageId>>, ghost ups: seq<Tree>)
      requires Valid() && |nodes| > 1 && Level(lim, pages, nodes, trees, h, HIGHEST, entries) && nodes[0].key < HIGHEST
      modifies this`pages, this`nextPage
      ensures Valid() && 0 < |next| < |nodes| && next[0].key == nodes[0].key
      ensures Level(lim, pages, next, ups, h + 1, HIGHEST, entries)
      ensures forall p :: p in old(pages) ==> p in pages && pages[p] == old(pages)[p]
    {
      hide Forest;
      hide Row;
      LevelSizes(lim, pages, nodes, trees, h, HIGHEST, entries);
      next, ups := [], [];
      var j := 0;
      while j < |nodes|
        invariant Valid() && j <= |nodes| && |next| <= j && (j > 0 ==> 0 < |next| < j)
        invariant RowOrNone(lim, next, ups, h + 1, nodes[0].key, TopOf(nodes, j))
        invariant Forest(pages, ups + trees[j..], entries)
        invariant forall p :: p in old(pages) ==> p in pages && pages[p] == old(pages)[p]
      {
        var a := j;
        ghost var before: map<PageId, Node> := pages;
        var id := NewPage(InnerNode(nodes[a].val, []));
        var cells;
        cells, j := FillInner(nodes, a);
        pages := pages[id := InnerNode(nodes[a].val, cells)];
        ghost var n := Inner(id, Keys(nodes[a + 1..j]), trees[a..j]);
        LevelStep(lim, before, pages, id, nodes, trees, h, next, ups, a, j, entries, n);
        next, ups := next + [Cell(nodes[a].key, id)], ups + [n];
      }
      assert ups + trees[j..] == ups;
    }
  }

  method WithoutEntry(rows: seq<Cell<Rid>>, c: Cell<Rid>) returns (removed: bool, out: seq<Cell<Rid>>)
    ensures removed <==> c in rows
    ensures Dropped(rows, out, c)
  {
    removed, out := false, [];
    ghost var p := 0;
    var slot := 0;
    while slot < |rows|
      invariant 0 <= slot <= |rows|
      invariant !removed ==> out == rows[..slot] && c !in rows[..slot]
      invariant removed ==> 0 <= p < slot && rows[p] == c && out == rows[..p] + rows[p + 1..slot]
    {
      if !removed && rows[slot].val == c.val && rows[slot].key == c.key {
        removed, p := true, slot;
      } else {
        out := out + [rows[slot]];
      }
      slot := slot + 1;
    }
    assert rows[..|rows|] == rows;
  }

  method LeafLookupEq(rows: seq<Cell<Rid>>, key: int) returns (rids: seq<Rid>)
    requires Sorted(rows)
    ensures rids == RidsUnder(rows, key)
  {
    rids := [];
    var slot := 0;
    while slot < |rows|
      invariant 0 <= slot <= |rows|
      invariant rids + RidsUnder(rows[slot..], key) == RidsUnder(rows, key)
    {
      if rows[slot].key == key {
        rids := rids + [rows[slot].val];
      } else if rows[slot].key > key {
        NoneUnder(rows[slot..], key);
        return;
      }
      assert rows[slot..][1..] == rows[slot + 1..];
      slot := slot + 1;
    }
    assert rows[slot..] == [];
  }
}
