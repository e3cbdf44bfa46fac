/** Insert, lookup and delete on the pages of a B+Tree, for distinct keys of one fixed width. */
module BTree {
  import opened Common
  import opened BTreeShape

  const PAGE_SIZE := 4096
  const HEADER_SIZE := 24
  const SLOT_SIZE := 4
  const MAX_KEY_LEN := 1024

  /** Leaf entry: key length, key, page and slot of the row. Inner entry: key length, key, child page. */
  function LeafEntryLen(width: nat): nat { 2 + width + 4 + 2 }

  function InnerEntryLen(width: nat): nat { 2 + width + 4 }

  function FreeSpace(count: nat, entryLen: nat): int {
    PAGE_SIZE - HEADER_SIZE - count * (entryLen + SLOT_SIZE)
  }

  predicate HasRoom(count: nat, entryLen: nat) {
    FreeSpace(count, entryLen) >= entryLen + SLOT_SIZE
  }

  function LimitsFor(width: nat): (m: Limits) {
    Limits((PAGE_SIZE - HEADER_SIZE) / (LeafEntryLen(width) + SLOT_SIZE),
           (PAGE_SIZE - HEADER_SIZE) / (InnerEntryLen(width) + SLOT_SIZE))
  }

  lemma HasRoomIff(count: nat, entryLen: nat)
    ensures HasRoom(count, entryLen) <==> count < (PAGE_SIZE - HEADER_SIZE) / (entryLen + SLOT_SIZE)
  {
    var e := entryLen + SLOT_SIZE;
    var q := 4072 / e;
    assert 4072 == q * e + 4072 % e;
    if count < q {
      assert (count + 1) * e <= q * e;
    } else {
      assert count * e >= q * e;
    }
  }

  /** The limits are the counts from which on another entry has no room. */
  lemma LimitsExactly(width: nat, count: nat)
    ensures HasRoom(count, LeafEntryLen(width)) <==> count < LimitsFor(width).leaf
    ensures HasRoom(count, InnerEntryLen(width)) <==> count < LimitsFor(width).inner
  {
    HasRoomIff(count, LeafEntryLen(width));
    HasRoomIff(count, InnerEntryLen(width));
  }

  lemma LimitsPositive(width: nat)
    requires width <= MAX_KEY_LEN
    ensures LimitsFor(width).leaf >= 3 && LimitsFor(width).inner >= 3
  {
    QuotientAtLeast3(LeafEntryLen(width) + SLOT_SIZE);
    QuotientAtLeast3(InnerEntryLen(width) + SLOT_SIZE);
  }

  lemma QuotientAtLeast3(e: nat)
    requires 0 < e <= 1036
    ensures 4072 / e >= 3
  {
    var q := 4072 / e;
    assert 4072 < (q + 1) * e;
    assert q <= 2 ==> (q + 1) * e <= 3 * e;
  }

  datatype Outcome = Fit | Split(sep: int, right: PageId)

  /** Rebuilds a node's entries with one more, placed before the first larger key. */
  method InsertSorted<V>(cells: seq<Cell<V>>, key: int, val: V) returns (out: seq<Cell<V>>)
    ensures var p := Position(Keys(cells), key); out == cells[..p] + [Cell(key, val)] + cells[p..]
  {
    ghost var p := Position(Keys(cells), key);
    out := [];
    var inserted := false;
    var slot := 0;
    while slot < |cells|
      invariant 0 <= slot <= |cells|
      invariant !inserted ==> slot <= p && out == cells[..slot]
      invariant inserted ==> p <= slot && out == cells[..p] + [Cell(key, val)] + cells[p..slot]
    {
      if !inserted && key < cells[slot].key {
        out := out + [Cell(key, val)];
        inserted := true;
        assert slot == p && cells[p..slot] == [];
      }
      out := out + [cells[slot]];
      slot := slot + 1;
    }
    if !inserted {
      out := out + [Cell(key, val)];
    }
  }

  /** The last slot before the first larger key, if there is one. */
  method RightmostLe<V>(cells: seq<Cell<V>>, key: int) returns (found: Option<nat>)
    ensures Position(Keys(cells), key) == match found case None => 0 case Some(i) => i + 1
  {
    found := None;
    var slot := 0;
    while slot < |cells|
      invariant 0 <= slot <= |cells|
      invariant slot <= Position(Keys(cells), key)
      invariant found == if slot == 0 then None else Some(slot - 1)
    {
      if cells[slot].key > key {
        break;
      }
      found := Some(slot);
      slot := slot + 1;
    }
  }

  /** Adding an entry to a leaf in its sorted place. */
  lemma LeafGains(rows: seq<Cell<Rid>>, c: Cell<Rid>)
    requires Sorted(rows) && forall r :: r in rows ==> r.key != c.key
    ensures var p := Position(Keys(rows), c.key); Sorted(rows[..p] + [c] + rows[p..])
    ensures var p := Position(Keys(rows), c.key); Added(rows, rows[..p] + [c] + rows[p..], c)
  {
    hide Position;
    hide Keys;
    var ks := Keys(rows);
    var p := Position(ks, c.key);
    assert forall i :: 0 <= i < p ==> ks[i] <= c.key && rows[i] in rows;
    assert p < |rows| ==> c.key < ks[p];
    var b := rows[..p] + [c] + rows[p..];
    forall i, j | 0 <= i < j < |b| ensures b[i].key < b[j].key {
      assert b[i] == if i < p then rows[i] else if i == p then c else rows[i - 1];
      assert b[j] == if j < p then rows[j] else if j == p then c else rows[j - 1];
    }
  }

  /** The child a search goes to is the one whose range contains the key. */
  lemma ChildInRange(seps: seq<int>, key: int, lo: int, hi: int)
    requires Increasing(seps) && lo <= key < hi
    ensures var i := Position(seps, key); Low(seps, lo, i) <= key < High(seps, hi, i)
  {
    hide Position;
  }

  lemma PositionInside(seps: seq<int>, i: nat, sep: int, lo: int, hi: int)
    requires Increasing(seps) && i <= |seps| && Low(seps, lo, i) < sep < High(seps, hi, i)
    ensures Position(seps, sep) == i
  {
    var p := Position(seps, sep);
    assert p > 0 ==> seps[p - 1] <= sep;
  }

  // ---- an inner node whose child was replaced by one or two trees ----

  /** The children of an inner node, without the capacity bound. */
  ghost predicate KidsOk(m: Limits, seps: seq<int>, kids: seq<Tree>, h: nat, lo: int, hi: int) {
    && |kids| == |seps| + 1 && Increasing(seps)
    && (forall s :: s in seps ==> lo < s < hi)
    && forall i :: 0 <= i < |kids| ==> WF(m, kids[i], h, Low(seps, lo, i), High(seps, hi, i))
  }

  ghost predicate RepAll(pages: map<PageId, Node>, ts: seq<Tree>) {
    forall i :: 0 <= i < |ts| ==> Rep(pages, ts[i]) && Distinct(ts[i])
  }

  function NewSeps(seps: seq<int>, i: nat, out: Outcome): seq<int>
    requires i <= |seps|
  {
    if out.Fit? then seps else seps[..i] + [out.sep] + seps[i..]
  }

  function NewKids(kids: seq<Tree>, i: nat, ts: seq<Tree>): seq<Tree>
    requires i < |kids|
  {
    kids[..i] + ts + kids[i + 1..]
  }

  /** What inserting `c` below `t` did: one tree, or two around a separator. */
  ghost predicate Grown(m: Limits, before: map<PageId, Node>, first: PageId, after: map<PageId, Node>, next: PageId,
                        t: Tree, h: nat, lo: int, hi: int, out: Outcome, ts: seq<Tree>)
  {
    && first <= next && (forall p :: p in after ==> p < next)
    && (forall p :: p in before && p !in Ids(t) ==> p in after && after[p] == before[p])
    && before.Keys <= after.Keys
    && |ts| == (if out.Fit? then 1 else 2) && ts[0].id == t.id
    && RepAll(after, ts) && Apart(ts)
    && (forall k, p :: 0 <= k < |ts| && p in Ids(ts[k]) ==> p in Ids(t) || first <= p < next)
    && (if out.Fit? then WF(m, ts[0], h, lo, hi)
        else lo < out.sep < hi && out.right == ts[1].id && WF(m, ts[0], h, lo, out.sep) && WF(m, ts[1], h, out.sep, hi))
  }

  ghost predicate SameLeaves(pages: map<PageId, Node>, t: Tree, ts: seq<Tree>, last: Option<PageId>) {
    && Leaves(t) != [] && LeavesAll(ts) != [] && LeavesAll(ts)[0] == Leaves(t)[0]
    && Chain(pages, LeavesAll(ts), last)
  }

  lemma SepAdded(seps: seq<int>, i: nat, sep: int, lo: int, hi: int)
    requires Increasing(seps) && i <= |seps| && (forall s :: s in seps ==> lo < s < hi)
    requires Low(seps, lo, i) < sep < High(seps, hi, i)
    ensures var r := seps[..i] + [sep] + seps[i..]; Increasing(r) && forall s :: s in r ==> lo < s < hi
  {
    var r := seps[..i] + [sep] + seps[i..];
    forall s | s in r ensures lo < s < hi {
      assert s in seps || s == sep;
      assert i > 0 ==> seps[i - 1] in seps;
      assert i < |seps| ==> seps[i] in seps;
    }
    forall j, k | 0 <= j < k < |r| ensures r[j] < r[k] {
      assert r[j] == if j < i then seps[j] else if j == i then sep else seps[j - 1];
      assert r[k] == if k < i then seps[k] else if k == i then sep else seps[k - 1];
    }
  }

  /** The children of `t`, with child `i` replaced, are ordered again. */
  lemma KidsReplaced(m: Limits, t: Tree, h: nat, lo: int, hi: int, i: nat, out: Outcome, ts: seq<Tree>)
    requires WF(m, t, h, lo, hi) && t.Inner? && i < |t.kids|
    requires |ts| == (if out.Fit? then 1 else 2)
    requires var l, u := Low(t.seps, lo, i), High(t.seps, hi, i);
      if out.Fit? then WF(m, ts[0], h - 1, l, u)
      else l < out.sep < u && WF(m, ts[0], h - 1, l, out.sep) && WF(m, ts[1], h - 1, out.sep, u)
    ensures KidsOk(m, NewSeps(t.seps, i, out), NewKids(t.kids, i, ts), h - 1, lo, hi)
  {
    var seps, kids := NewSeps(t.seps, i, out), NewKids(t.kids, i, ts);
    if out.Split? {
      SepAdded(t.seps, i, out.sep, lo, hi);
    }
    forall j | 0 <= j < |kids| ensures WF(m, kids[j], h - 1, Low(seps, lo, j), High(seps, hi, j)) {
      if j < i {
        assert kids[j] == t.kids[j];
        assert WF(m, t.kids[j], h - 1, Low(t.seps, lo, j), High(t.seps, hi, j));
      } else if j < i + |ts| {
        assert kids[j] == ts[j - i];
      } else {
        assert kids[j] == t.kids[j - |ts| + 1];
        assert WF(m, t.kids[j - |ts| + 1], h - 1, Low(t.seps, lo, j - |ts| + 1), High(t.seps, hi, j - |ts| + 1));
      }
    }
  }

  lemma KidsStillStored(before: map<PageId, Node>, after: map<PageId, Node>, first: PageId, next: PageId,
                        t: Tree, i: nat, ts: seq<Tree>)
    requires t.Inner? && i < |t.kids| && Rep(before, t) && Distinct(t)
    requires forall p :: p in before ==> p < first
    requires forall p :: p in before && p !in Ids(t.kids[i]) ==> p in after && after[p] == before[p]
    requires RepAll(after, ts) && Apart(ts)
    requires forall k, p :: 0 <= k < |ts| && p in Ids(ts[k]) ==> p in Ids(t.kids[i]) || first <= p < next
    ensures RepAll(after, NewKids(t.kids, i, ts)) && Apart(NewKids(t.kids, i, ts))
    ensures forall k :: 0 <= k < |NewKids(t.kids, i, ts)| ==> t.id !in Ids(NewKids(t.kids, i, ts)[k])
    ensures forall k, p :: 0 <= k < |NewKids(t.kids, i, ts)| && p in Ids(NewKids(t.kids, i, ts)[k]) ==>
      p in Ids(t) || first <= p < next
  {
    hide Rep;
    hide Distinct;
    hide NewKids;
    var kids := NewKids(t.kids, i, ts);
    forall k | 0 <= k < |kids|
      ensures Rep(after, kids[k]) && Distinct(kids[k])
      ensures forall p :: p in Ids(kids[k]) ==> p != t.id && (p in Ids(t) || first <= p < next)
    {
      KidKept(before, after, first, next, t, i, ts, k);
    }
    hide Ids;
    KidsApart(before, after, first, next, t, i, ts);
  }

  /** One child of the new list: an old one that nobody touched, or one of the new trees. */
  lemma KidKept(before: map<PageId, Node>, after: map<PageId, Node>, first: PageId, next: PageId,
                t: Tree, i: nat, ts: seq<Tree>, k: nat)
    requires t.Inner? && i < |t.kids| && Rep(before, t) && Distinct(t)
    requires forall p :: p in before ==> p < first
    requires forall p :: p in before && p !in Ids(t.kids[i]) ==> p in after && after[p] == before[p]
    requires RepAll(after, ts) && Apart(ts)
    requires forall k, p :: 0 <= k < |ts| && p in Ids(ts[k]) ==> p in Ids(t.kids[i]) || first <= p < next
    requires k < |NewKids(t.kids, i, ts)|
    ensures var kid := NewKids(t.kids, i, ts)[k];
      && Rep(after, kid) && Distinct(kid)
      && forall p :: p in Ids(kid) ==> p != t.id && (p in Ids(t) || first <= p < next)
  {
    OwnId(before, t, first);
    hide Rep;
    hide Distinct;
    hide Ids;
    hide Apart;
    if k < i {
      OldKid(before, after, first, t, i, k);
    } else if k < i + |ts| {
      OldKid(before, after, first, t, i, i);
      assert NewKids(t.kids, i, ts)[k] == ts[k - i];
    } else {
      OldKid(before, after, first, t, i, k - |ts| + 1);
    }
  }

  lemma KidsApart(before: map<PageId, Node>, after: map<PageId, Node>, first: PageId, next: PageId,
                  t: Tree, i: nat, ts: seq<Tree>)
    requires t.Inner? && i < |t.kids| && Rep(before, t) && Distinct(t)
    requires forall p :: p in before ==> p < first
    requires forall p :: p in before && p !in Ids(t.kids[i]) ==> p in after && after[p] == before[p]
    requires RepAll(after, ts) && Apart(ts)
    requires forall k, p :: 0 <= k < |ts| && p in Ids(ts[k]) ==> p in Ids(t.kids[i]) || first <= p < next
    ensures Apart(NewKids(t.kids, i, ts))
  {
    OwnId(before, t, first);
    hide Rep;
    hide Distinct;
    hide Ids;
    hide NewKids;
    forall j | 0 <= j < |t.kids| ensures forall p :: p in Ids(t.kids[j]) ==> p < first {
      OldKid(before, after, first, t, i, j);
    }
    var kids := NewKids(t.kids, i, ts);
    forall k, l | 0 <= k < l < |kids| ensures Ids(kids[k]) !! Ids(kids[l]) {
      OldAndNewApart(t, i, ts, first, k, l);
    }
  }

  lemma OwnId(before: map<PageId, Node>, t: Tree, first: PageId)
    requires t.Inner? && Rep(before, t) && Distinct(t) && forall p :: p in before ==> p < first
    ensures t.id < first && Apart(t.kids)
  {
  }

  lemma OldKid(before: map<PageId, Node>, after: map<PageId, Node>, first: PageId, t: Tree, i: nat, j: nat)
    requires t.Inner? && i < |t.kids| && j < |t.kids| && Rep(before, t) && Distinct(t) && t.id < first
    requires forall p :: p in before ==> p < first
    requires forall p :: p in before && p !in Ids(t.kids[i]) ==> p in after && after[p] == before[p]
    ensures forall p :: p in Ids(t.kids[j]) ==> p in Ids(t) && p != t.id && p < first
    ensures j != i ==> Rep(after, t.kids[j]) && Distinct(t.kids[j])
  {
    RepIds(before, t.kids[j]);
    if j != i {
      assert Ids(t.kids[j]) !! Ids(t.kids[i]);
      RepFrame(before, after, t.kids[j]);
    }
  }

  lemma OldAndNewApart(t: Tree, i: nat, ts: seq<Tree>, first: PageId, k: nat, l: nat)
    requires t.Inner? && i < |t.kids| && Apart(t.kids) && Apart(ts)
    requires forall j, p :: 0 <= j < |t.kids| && p in Ids(t.kids[j]) ==> p < first
    requires forall j, p :: 0 <= j < |ts| && p in Ids(ts[j]) ==> p in Ids(t.kids[i]) || p >= first
    requires k < l < |NewKids(t.kids, i, ts)|
    ensures Ids(NewKids(t.kids, i, ts)[k]) !! Ids(NewKids(t.kids, i, ts)[l])
  {
    var n := |ts|;
    if l < i || k >= i + n {
      var k', l' := if l < i then k else k - n + 1, if l < i then l else l - n + 1;
      assert Ids(t.kids[k']) !! Ids(t.kids[l']);
    } else if k < i && l >= i + n {
      assert Ids(t.kids[k]) !! Ids(t.kids[l - n + 1]);
    } else if k < i {
      assert Ids(t.kids[k]) !! Ids(t.kids[i]);
    } else if l >= i + n {
      assert Ids(t.kids[i]) !! Ids(t.kids[l - n + 1]);
    } else {
      assert Ids(ts[k - i]) !! Ids(ts[l - i]);
    }
  }

  lemma ContentsReplaced(m: Limits, t: Tree, h: nat, lo: int, hi: int, i: nat, ts: seq<Tree>, c: Cell<Rid>)
    requires WF(m, t, h, lo, hi) && t.Inner? && i < |t.kids|
    requires Low(t.seps, lo, i) <= c.key < High(t.seps, hi, i)
    ensures Added(Flat(t.kids[i]), FlatAll(ts), c) ==> Added(Flat(t), FlatAll(NewKids(t.kids, i, ts)), c)
    ensures Dropped(Flat(t.kids[i]), FlatAll(ts), c) ==> Dropped(Flat(t), FlatAll(NewKids(t.kids, i, ts)), c)
  {
    var a, b := t.kids[..i], t.kids[i + 1..];
    assert t.kids == a + [t.kids[i]] + b;
    FlatAppend(a + [t.kids[i]], b);
    FlatAppend(a, [t.kids[i]]);
    FlatOne(t.kids[i]);
    FlatAppend(a + ts, b);
    FlatAppend(a, ts);
    RangeOrdered(m, t, h, lo, hi, 0, i);
    RangeOrdered(m, t, h, lo, hi, i + 1, |t.kids|);
    assert t.kids[0..i] == a && t.kids[i + 1..|t.kids|] == b;
    if Added(Flat(t.kids[i]), FlatAll(ts), c) {
      AddedInside(FlatAll(a), Flat(t.kids[i]), FlatAll(ts), FlatAll(b), c);
    }
    if Dropped(Flat(t.kids[i]), FlatAll(ts), c) {
      DroppedInside(FlatAll(a), Flat(t.kids[i]), FlatAll(ts), FlatAll(b), c);
    }
  }

  /** The first leaf right of child `i`, or what follows the whole node. */
  function LeafAfter(t: Tree, i: nat, last: Option<PageId>): Option<PageId>
    requires t.Inner? && i < |t.kids|
  {
    var right := LeavesAll(t.kids[i + 1..]);
    if right == [] then last else Some(right[0])
  }

  lemma LeavesAround(m: Limits, t: Tree, h: nat, lo: int, hi: int, i: nat)
    requires WF(m, t, h, lo, hi) && t.Inner? && i < |t.kids|
    ensures Leaves(t) == LeavesAll(t.kids[..i]) + Leaves(t.kids[i]) + LeavesAll(t.kids[i + 1..])
    ensures Leaves(t.kids[i]) != []
  {
    var a, b := t.kids[..i], t.kids[i + 1..];
    assert t.kids == a + [t.kids[i]] + b;
    FlatAppend(a + [t.kids[i]], b);
    FlatAppend(a, [t.kids[i]]);
    FlatOne(t.kids[i]);
    LeavesExist(m, t.kids[i], h - 1, Low(t.seps, lo, i), High(t.seps, hi, i));
  }

  lemma ChainOfChild(m: Limits, pages: map<PageId, Node>, t: Tree, h: nat, lo: int, hi: int, i: nat,
    last: Option<PageId>)
    requires WF(m, t, h, lo, hi) && t.Inner? && i < |t.kids| && Chain(pages, Leaves(t), last)
    ensures Chain(pages, Leaves(t.kids[i]), LeafAfter(t, i, last))
  {
    LeavesAround(m, t, h, lo, hi, i);
    var a, x, b := LeavesAll(t.kids[..i]), Leaves(t.kids[i]), LeavesAll(t.kids[i + 1..]);
    ChainSplit(pages, a + x, b, last);
    ChainSplit(pages, a, x, LeafAfter(t, i, last));
  }

  lemma ChainFrame(before: map<PageId, Node>, after: map<PageId, Node>, leaves: seq<PageId>, last: Option<PageId>)
    requires Chain(before, leaves, last)
    requires forall p :: p in leaves ==> p in after && p in before && after[p] == before[p]
    ensures Chain(after, leaves, last)
  {
    forall i | 0 <= i < |leaves| ensures Link(after, leaves[i], NextOf(leaves, i, last)) {
      assert leaves[i] in leaves;
      assert Link(before, leaves[i], NextOf(leaves, i, last));
    }
  }

  lemma LeavesBesideApart(pages: map<PageId, Node>, t: Tree, i: nat)
    requires t.Inner? && i < |t.kids| && Distinct(t) && Rep(pages, t)
    ensures forall p :: p in LeavesAll(t.kids[..i]) || p in LeavesAll(t.kids[i + 1..]) ==>
      p in pages && p !in Ids(t.kids[i])
  {
    var a, b := t.kids[..i], t.kids[i + 1..];
    RepIds(pages, t);
    LeavesAllInIds(a);
    LeavesAllInIds(b);
    forall p | p in LeavesAll(a) ensures p in pages && p !in Ids(t.kids[i]) {
      var j :| 0 <= j < |a| && p in Ids(a[j]);
      assert Ids(t.kids[j]) !! Ids(t.kids[i]);
    }
    forall p | p in LeavesAll(b) ensures p in pages && p !in Ids(t.kids[i]) {
      var j :| 0 <= j < |b| && p in Ids(b[j]);
      assert b[j] == t.kids[i + 1 + j] && Ids(t.kids[i]) !! Ids(t.kids[i + 1 + j]);
    }
  }

  lemma ChainReplaced(m: Limits, before: map<PageId, Node>, after: map<PageId, Node>,
                      t: Tree, h: nat, lo: int, hi: int, i: nat, ts: seq<Tree>, last: Option<PageId>)
    requires WF(m, t, h, lo, hi) && t.Inner? && i < |t.kids| && Distinct(t) && Rep(before, t)
    requires Chain(before, Leaves(t), last)
    requires forall p :: p in before && p !in Ids(t.kids[i]) ==> p in after && after[p] == before[p]
    requires SameLeaves(after, t.kids[i], ts, LeafAfter(t, i, last))
    ensures Leaves(t) != [] && LeavesAll(NewKids(t.kids, i, ts)) != []
    ensures LeavesAll(NewKids(t.kids, i, ts))[0] == Leaves(t)[0]
    ensures Chain(after, LeavesAll(NewKids(t.kids, i, ts)), last)
  {
    LeavesAround(m, t, h, lo, hi, i);
    var a, x, b := LeavesAll(t.kids[..i]), Leaves(t.kids[i]), LeavesAll(t.kids[i + 1..]);
    var y := LeavesAll(ts);
    hide WF;
    hide Rep;
    hide Distinct;
    hide Leaves;
    hide LeavesAll;
    FlatAppend(t.kids[..i] + ts, t.kids[i + 1..]);
    FlatAppend(t.kids[..i], ts);
    ChainSplit(before, a + x, b, last);
    ChainSplit(before, a, x, LeafAfter(t, i, last));
    LeavesBesideApart(before, t, i);
    ChainFrame(before, after, a, Some(x[0]));
    if b != [] {
      ChainFrame(before, after, b, last);
    }
    ChainSplit(after, a, y, LeafAfter(t, i, last));
    ChainSplit(after, a + y, b, last);
  }

  /** Cutting an overfull list of children around its middle separator. */
  lemma SplitKids(m: Limits, seps: seq<int>, kids: seq<Tree>, h: nat, lo: int, hi: int, mid: nat)
    requires KidsOk(m, seps, kids, h, lo, hi) && mid < |seps|
    ensures lo < seps[mid] < hi
    ensures KidsOk(m, seps[..mid], kids[..mid + 1], h, lo, seps[mid])
    ensures KidsOk(m, seps[mid + 1..], kids[mid + 1..], h, seps[mid], hi)
  {
    assert seps[mid] in seps;
    var l, r := seps[..mid], seps[mid + 1..];
    assert forall i :: 0 <= i < |l| ==> l[i] == seps[i] && seps[i] in seps && l[i] < seps[mid];
    assert forall i :: 0 <= i < |r| ==> r[i] == seps[mid + 1 + i] && seps[mid + 1 + i] in seps && seps[mid] < r[i];
    forall i | 0 <= i < |l| + 1 ensures WF(m, kids[..mid + 1][i], h, Low(l, lo, i), High(l, seps[mid], i)) {
      assert WF(m, kids[i], h, Low(seps, lo, i), High(seps, hi, i));
    }
    forall i | 0 <= i < |r| + 1 ensures WF(m, kids[mid + 1..][i], h, Low(r, seps[mid], i), High(r, hi, i)) {
      assert WF(m, kids[mid + 1 + i], h, Low(seps, lo, mid + 1 + i), High(seps, hi, mid + 1 + i));
    }
  }

  lemma KidContents(t: Tree, i: nat)
    requires t.Inner? && i < |t.kids|
    ensures forall c :: c in Flat(t.kids[i]) ==> c in Flat(t)
  {
    assert t.kids == t.kids[..i] + [t.kids[i]] + t.kids[i + 1..];
    FlatAppend(t.kids[..i] + [t.kids[i]], t.kids[i + 1..]);
    FlatAppend(t.kids[..i], [t.kids[i]]);
    FlatOne(t.kids[i]);
  }

  lemma FlatTwo(x: Tree, y: Tree)
    ensures FlatAll([x, y]) == Flat(x) + Flat(y) && LeavesAll([x, y]) == Leaves(x) + Leaves(y)
  {
    assert [x, y] == [x] + [y];
    FlatAppend([x], [y]);
    FlatOne(x);
    FlatOne(y);
    hide *;
  }

  /** Two inner nodes cut from one list of children hold the same rows and leaves as the list. */
  lemma CutContents(a: PageId, b: PageId, l: seq<int>, r: seq<int>, kids: seq<Tree>, n: nat)
    requires n <= |kids|
    ensures FlatAll([Inner(a, l, kids[..n]), Inner(b, r, kids[n..])]) == FlatAll(kids)
    ensures LeavesAll([Inner(a, l, kids[..n]), Inner(b, r, kids[n..])]) == LeavesAll(kids)
  {
    var x, y := Inner(a, l, kids[..n]), Inner(b, r, kids[n..]);
    FlatTwo(x, y);
    assert kids == kids[..n] + kids[n..];
    FlatAppend(kids[..n], kids[n..]);
    hide FlatAll;
    hide LeavesAll;
  }

  /** Writing pages outside the children's leaves changes neither the children nor the leaf chain. */
  lemma KidsFramed(before: map<PageId, Node>, after: map<PageId, Node>, kids: seq<Tree>, last: Option<PageId>)
    requires RepAll(before, kids) && Chain(before, LeavesAll(kids), last)
    requires forall k, p :: 0 <= k < |kids| && p in Ids(kids[k]) && p in before ==> p in after && after[p] == before[p]
    ensures RepAll(after, kids) && Chain(after, LeavesAll(kids), last)
  {
    forall k | 0 <= k < |kids| ensures Rep(after, kids[k]) && Ids(kids[k]) <= before.Keys {
      RepIds(before, kids[k]);
      RepFrame(before, after, kids[k]);
    }
    LeavesAllInIds(kids);
    ChainFrame(before, after, LeavesAll(kids), last);
  }

  /** The page of an inner node with these children. */
  function InnerPage(seps: seq<int>, kids: seq<Tree>): Node
    requires |kids| == |seps| + 1
  {
    InnerNode(kids[0].id, seq(|seps|, i requires 0 <= i < |seps| => Cell(seps[i], kids[i + 1].id)))
  }

  lemma InnerStored(pages: map<PageId, Node>, id: PageId, seps: seq<int>, kids: seq<Tree>)
    requires |kids| == |seps| + 1 && RepAll(pages, kids) && Apart(kids)
    requires id in pages && pages[id] == InnerPage(seps, kids)
    requires forall k :: 0 <= k < |kids| ==> id !in Ids(kids[k])
    ensures Rep(pages, Inner(id, seps, kids)) && Distinct(Inner(id, seps, kids))
  {
  }

  lemma InnerPageUnique(pages: map<PageId, Node>, t: Tree)
    requires Rep(pages, t) && t.Inner?
    ensures pages[t.id] == InnerPage(t.seps, t.kids)
  {
    assert pages[t.id].cells == InnerPage(t.seps, t.kids).cells;
  }

  /** Inserting `c` below `t` turned the pages `before` into `after` and the subtree into `ts`. */
  ghost predicate Done(m: Limits, before: map<PageId, Node>, first: PageId, after: map<PageId, Node>, next: PageId,
                       t: Tree, h: nat, lo: int, hi: int, last: Option<PageId>, c: Cell<Rid>, out: Outcome,
                         ts: seq<Tree>)
  {
    && Grown(m, before, first, after, next, t, h, lo, hi, out, ts)
    && SameLeaves(after, t, ts, last)
    && Added(Flat(t), FlatAll(ts), c)
  }

  lemma LeafFits(m: Limits, before: map<PageId, Node>, first: PageId, t: Tree, lo: int, hi: int,
                 last: Option<PageId>, c: Cell<Rid>, all: seq<Cell<Rid>>)
    requires t.Leaf? && WF(m, t, 0, lo, hi) && (forall p :: p in before ==> p < first) && t.id in before
    requires Sorted(all) && Added(t.rows, all, c) && |all| <= m.leaf && lo <= c.key < hi
    ensures var after := before[t.id := LeafNode(last, all)];
      Done(m, before, first, after, first, t, 0, lo, hi, last, c, Fit, [Leaf(t.id, all)])
  {
    var r := Leaf(t.id, all);
    FlatOne(r);
    assert forall x :: x in all ==> x in t.rows || x == c;
    assert Leaves(r) == [t.id] && Leaves(t) == [t.id];
  }

  lemma LeafSplits(m: Limits, before: map<PageId, Node>, first: PageId, after: map<PageId, Node>, t: Tree, lo: int,
                   hi: int, last: Option<PageId>, c: Cell<Rid>, all: seq<Cell<Rid>>, mid: nat, l: Tree, r: Tree)
    requires t.Leaf? && WF(m, t, 0, lo, hi) && (forall p :: p in before ==> p < first) && t.id in before
    requires Sorted(all) && Added(t.rows, all, c) && lo <= c.key < hi
    requires 0 < mid < |all| && mid <= m.leaf && |all| - mid <= m.leaf
    requires l == Leaf(t.id, all[..mid]) && r == Leaf(first, all[mid..])
    requires after == before[first := LeafNode(last, r.rows)][t.id := LeafNode(Some(first), l.rows)]
    ensures Done(m, before, first, after, first + 1, t, 0, lo, hi, last, c, Split(all[mid].key, first), [l, r])
  {
    hide WF;
    hide Added;
    hide Sorted;
    hide Flat;
    hide FlatAll;
    LeafInRange(m, t, lo, hi);
    LeafHalves(m, l, r, all, mid, lo, hi, t.rows, c);
    LeafPair(l, r);
    assert all[..mid] + all[mid..] == all;
    var ls := [t.id, first];
    assert Link(after, ls[0], NextOf(ls, 0, last)) && Link(after, ls[1], NextOf(ls, 1, last));
  }

  lemma LeafInRange(m: Limits, t: Tree, lo: int, hi: int)
    requires t.Leaf? && WF(m, t, 0, lo, hi)
    ensures Flat(t) == t.rows && Leaves(t) == [t.id] && forall c :: c in t.rows ==> lo <= c.key < hi
  {
  }

  lemma LeafRoom(m: Limits, t: Tree, lo: int, hi: int)
    requires t.Leaf? && WF(m, t, 0, lo, hi)
    ensures |t.rows| <= m.leaf && Sorted(t.rows)
  {
  }

  lemma LeafPair(l: Tree, r: Tree)
    requires l.Leaf? && r.Leaf?
    ensures FlatAll([l, r]) == l.rows + r.rows && LeavesAll([l, r]) == [l.id, r.id]
  {
    assert [l, r] == [l] + [r];
    FlatAppend([l], [r]);
    FlatOne(l);
    FlatOne(r);
  }

  lemma LeafHalves(m: Limits, l: Tree, r: Tree, all: seq<Cell<Rid>>, mid: nat, lo: int, hi: int,
                   rows: seq<Cell<Rid>>, c: Cell<Rid>)
    requires 0 < mid < |all| && mid <= m.leaf && |all| - mid <= m.leaf
    requires l.Leaf? && r.Leaf? && l.rows == all[..mid] && r.rows == all[mid..]
    requires Sorted(all) && Added(rows, all, c) && lo <= c.key < hi && forall x :: x in rows ==> lo <= x.key < hi
    ensures lo < all[mid].key < hi && WF(m, l, 0, lo, all[mid].key) && WF(m, r, 0, all[mid].key, hi)
  {
    assert forall k :: 0 <= k < |all| ==> lo <= all[k].key < hi by {
      forall k | 0 <= k < |all| ensures lo <= all[k].key < hi {
        assert all[k] in rows || all[k] == c;
      }
    }
    hide Added;
    HalfOk(m, l.id, all, 0, mid, lo, all[mid].key);
    HalfOk(m, r.id, all, mid, |all|, all[mid].key, hi);
    assert all[0].key < all[mid].key && all[..mid] == all[0..mid] && all[mid..] == all[mid..|all|];
  }

  lemma HalfOk(m: Limits, id: PageId, all: seq<Cell<Rid>>, a: nat, b: nat, lo: int, hi: int)
    requires a <= b <= |all| && b - a <= m.leaf && Sorted(all)
    requires forall k :: a <= k < b ==> lo <= all[k].key < hi
    ensures WF(m, Leaf(id, all[a..b]), 0, lo, hi)
  {
    var part := all[a..b];
    forall i, j | 0 <= i < j < |part| ensures part[i].key < part[j].key {
      assert part[i] == all[a + i] && part[j] == all[a + j];
    }
    forall c | c in part ensures lo <= c.key < hi {
      var k :| 0 <= k < |part| && part[k] == c;
      assert c == all[a + k];
    }
  }

  /** An inner page `node` took in the children `all`: one node, or two around a separator. */
  ghost predicate Absorbed(m: Limits, mid: map<PageId, Node>, first: PageId, after: map<PageId, Node>, next: PageId,
                           node: PageId, all: seq<Tree>, h: nat, lo: int, hi: int, last: Option<PageId>,
                           out: Outcome, ts: seq<Tree>)
  {
    && first <= next && (forall p :: p in after ==> p < next) && mid.Keys <= after.Keys
    && (forall p :: p in mid && p != node ==> after[p] == mid[p])
    && |ts| == (if out.Fit? then 1 else 2) && ts[0].id == node && RepAll(after, ts) && Apart(ts)
    && (forall k, p :: 0 <= k < |ts| && p in Ids(ts[k]) && p != node && !(first <= p < next) ==>
          exists j :: 0 <= j < |all| && p in Ids(all[j]))
    && (if out.Fit? then WF(m, ts[0], h, lo, hi)
        else lo < out.sep < hi && out.right == ts[1].id && WF(m, ts[0], h, lo, out.sep) && WF(m, ts[1], h, out.sep, hi))
    && FlatAll(ts) == FlatAll(all) && LeavesAll(ts) == LeavesAll(all)
    && Chain(after, LeavesAll(ts), last)
  }

  ghost predicate Absorbable(m: Limits, mid: map<PageId, Node>, first: PageId, node: PageId,
                             seps: seq<int>, all: seq<Tree>, h: nat, lo: int, hi: int, last: Option<PageId>)
  {
    && h > 0 && node in mid && (forall p :: p in mid ==> p < first)
    && KidsOk(m, seps, all, h - 1, lo, hi) && RepAll(mid, all) && Apart(all)
    && (forall k :: 0 <= k < |all| ==> node !in Ids(all[k]))
    && Chain(mid, LeavesAll(all), last)
  }

  lemma AbsorbFits(m: Limits, mid: map<PageId, Node>, first: PageId, after: map<PageId, Node>, node: PageId,
                   seps: seq<int>, all: seq<Tree>, h: nat, lo: int, hi: int, last: Option<PageId>)
    requires Absorbable(m, mid, first, node, seps, all, h, lo, hi, last) && |seps| <= m.inner
    requires after == mid[node := InnerPage(seps, all)]
    ensures Absorbed(m, mid, first, after, first, node, all, h, lo, hi, last, Fit, [Inner(node, seps, all)])
  {
    hide WF;
    hide Rep;
    hide Distinct;
    hide Chain;
    var n := Inner(node, seps, all);
    KidsFramed(mid, after, all, last);
    InnerStored(after, node, seps, all);
    FlatOne(n);
    InnerWF(m, n, h, lo, hi);
    hide KidsOk;
    IdsOfInner(node, seps, all);
    hide Ids;
  }

  lemma IdsOfInner(node: PageId, seps: seq<int>, all: seq<Tree>)
    ensures forall p :: p in Ids(Inner(node, seps, all)) && p != node ==> exists j :: 0 <= j < |all| && p in Ids(all[j])
  {
    var n := Inner(node, seps, all);
    forall p | p in Ids(n) && p != node ensures exists j :: 0 <= j < |all| && p in Ids(all[j]) {
      var j :| 0 <= j < |n.kids| && p in Ids(n.kids[j]);
      assert p in Ids(all[j]);
    }
  }

  lemma AbsorbSplits(m: Limits, mid: map<PageId, Node>, first: PageId, after: map<PageId, Node>, node: PageId,
                     seps: seq<int>, all: seq<Tree>, h: nat, lo: int, hi: int, last: Option<PageId>, cut: nat,
                     l: Tree, r: Tree)
    requires Absorbable(m, mid, first, node, seps, all, h, lo, hi, last)
    requires cut < |seps| && cut <= m.inner && |seps| - cut - 1 <= m.inner
    requires l == Inner(node, seps[..cut], all[..cut + 1]) && r == Inner(first, seps[cut + 1..], all[cut + 1..])
    requires after == mid[first := InnerPage(r.seps, r.kids)][node := InnerPage(l.seps, l.kids)]
    ensures Absorbed(m, mid, first, after, first + 1, node, all, h, lo, hi, last, Split(seps[cut], first), [l, r])
  {
    hide WF;
    hide Rep;
    hide Distinct;
    hide Chain;
    assert lo < seps[cut] < hi && WF(m, l, h, lo, seps[cut]) && WF(m, r, h, seps[cut], hi) by {
      SplitKids(m, seps, all, h - 1, lo, hi, cut);
      InnerWF(m, l, h, lo, seps[cut]);
      InnerWF(m, r, h, seps[cut], hi);
    }
    hide KidsOk;
    CutStored(mid, after, first, seps, all, last, cut, l, r);
    CutContents(node, first, seps[..cut], seps[cut + 1..], all, cut + 1);
    IdsOfPair(l, r, node, first, all);
  }

  lemma InnerWF(m: Limits, t: Tree, h: nat, lo: int, hi: int)
    requires t.Inner? && h > 0 && |t.seps| <= m.inner && KidsOk(m, t.seps, t.kids, h - 1, lo, hi)
    ensures WF(m, t, h, lo, hi)
  {
  }

  lemma IdsOfPair(l: Tree, r: Tree, node: PageId, first: PageId, all: seq<Tree>)
    requires l.id == node && r.id == first
    requires forall p :: p in Ids(l) && p != l.id ==> exists j :: 0 <= j < |all| && p in Ids(all[j])
    requires forall p :: p in Ids(r) && p != r.id ==> exists j :: 0 <= j < |all| && p in Ids(all[j])
    ensures forall k, p :: 0 <= k < 2 && p in Ids([l, r][k]) && p != node && !(first <= p < first + 1) ==>
      exists j :: 0 <= j < |all| && p in Ids(all[j])
  {
  }

  lemma CutStored(mid: map<PageId, Node>, after: map<PageId, Node>, first: PageId, seps: seq<int>, all: seq<Tree>,
                  last: Option<PageId>, cut: nat, l: Tree, r: Tree)
    requires (forall p :: p in mid ==> p < first) && RepAll(mid, all) && Apart(all) && Chain(mid, LeavesAll(all), last)
    requires |all| == |seps| + 1 && cut < |seps| && l.id in mid && r.id == first
    requires l == Inner(l.id, seps[..cut], all[..cut + 1]) && r == Inner(first, seps[cut + 1..], all[cut + 1..])
    requires after == mid[first := InnerPage(r.seps, r.kids)][l.id := InnerPage(l.seps, l.kids)]
    requires forall k :: 0 <= k < |all| ==> l.id !in Ids(all[k])
    ensures RepAll(after, [l, r]) && Apart([l, r]) && Chain(after, LeavesAll(all), last)
    ensures forall p :: p in Ids(l) && p != l.id ==> exists j :: 0 <= j < |all| && p in Ids(all[j])
    ensures forall p :: p in Ids(r) && p != r.id ==> exists j :: 0 <= j < |all| && p in Ids(all[j])
  {
    forall k | 0 <= k < |all| ensures Ids(all[k]) <= mid.Keys {
      RepIds(mid, all[k]);
    }
    KidsFramed(mid, after, all, last);
    InnerStored(after, l.id, l.seps, l.kids);
    InnerStored(after, first, r.seps, r.kids);
    HalvesApart(l, r, all, cut + 1, first);
  }

  lemma HalvesApart(l: Tree, r: Tree, all: seq<Tree>, n: nat, first: PageId)
    requires l.Inner? && r.Inner? && n <= |all| && l.kids == all[..n] && r.kids == all[n..] && Apart(all)
    requires forall k, p :: 0 <= k < |all| && p in Ids(all[k]) ==> p < first && p != l.id
    requires l.id < first && r.id == first
    ensures Ids(l) !! Ids(r)
    ensures forall p :: p in Ids(l) && p != l.id ==> exists j :: 0 <= j < |all| && p in Ids(all[j])
    ensures forall p :: p in Ids(r) && p != r.id ==> exists j :: 0 <= j < |all| && p in Ids(all[j])
  {
    forall p | p in Ids(l) && p != l.id ensures exists j :: 0 <= j < n && p in Ids(all[j]) {
      var j :| 0 <= j < |l.kids| && p in Ids(l.kids[j]);
      assert all[j] == l.kids[j];
    }
    forall p | p in Ids(r) && p != r.id ensures exists j :: n <= j < |all| && p in Ids(all[j]) {
      var j :| 0 <= j < |r.kids| && p in Ids(r.kids[j]);
      assert all[n + j] == r.kids[j];
    }
  }

  /** The child's result and the parent's absorption of it together are the result for the parent. */
  lemma InnerDone(m: Limits, before: map<PageId, Node>, first: PageId, mid: map<PageId, Node>, midNext: PageId,
                  after: map<PageId, Node>, next: PageId, t: Tree, h: nat, lo: int, hi: int, last: Option<PageId>,
                  c: Cell<Rid>, i: nat, inner: Outcome, kids: seq<Tree>, out: Outcome, ts: seq<Tree>)
    requires t.Inner? && WF(m, t, h, lo, hi) && Rep(before, t) && i < |t.kids|
    requires first <= midNext && before.Keys <= mid.Keys
    requires forall p :: p in before && p !in Ids(t.kids[i]) ==> mid[p] == before[p]
    requires forall k, p :: 0 <= k < |NewKids(t.kids, i, kids)| && p in Ids(NewKids(t.kids, i, kids)[k]) ==>
      p in Ids(t) || first <= p < midNext
    requires Absorbed(m, mid, midNext, after, next, t.id, NewKids(t.kids, i, kids), h, lo, hi, last, out, ts)
    requires Leaves(t) != [] && LeavesAll(ts) != [] && LeavesAll(ts)[0] == Leaves(t)[0]
    requires Added(Flat(t), FlatAll(NewKids(t.kids, i, kids)), c)
    ensures Done(m, before, first, after, next, t, h, lo, hi, last, c, out, ts)
  {
    assert forall p :: p in Ids(t.kids[i]) ==> p in Ids(t);
    assert t.id in Ids(t);
  }

  /** Inserting the separator's entry into the parent's page gives the page of the more list of children. */
  lemma InnerPageAdds(t: Tree, i: nat, out: Outcome, kids: seq<Tree>)
    requires t.Inner? && |t.kids| == |t.seps| + 1 && i < |t.kids|
    requires out.Split? && |kids| == 2 && kids[0].id == t.kids[i].id && kids[1].id == out.right
    ensures var cells := InnerPage(t.seps, t.kids).cells;
      InnerNode(t.kids[0].id, cells[..i] + [Cell(out.sep, out.right)] + cells[i..]) ==
      InnerPage(NewSeps(t.seps, i, out), NewKids(t.kids, i, kids))
  {
    var cells := InnerPage(t.seps, t.kids).cells;
    var more := cells[..i] + [Cell(out.sep, out.right)] + cells[i..];
    var seps, all := NewSeps(t.seps, i, out), NewKids(t.kids, i, kids);
    forall j | 0 <= j < |more| ensures more[j] == Cell(seps[j], all[j + 1].id) {
      if j < i {
        assert more[j] == cells[j];
      } else if j > i {
        assert more[j] == cells[j - 1];
      }
    }
  }

  lemma InnerPageCut(seps: seq<int>, all: seq<Tree>, mid: nat)
    requires |all| == |seps| + 1 && mid < |seps|
    ensures var cells := InnerPage(seps, all).cells;
      && InnerNode(all[0].id, cells[..mid]) == InnerPage(seps[..mid], all[..mid + 1])
      && InnerNode(cells[mid].val, cells[mid + 1..]) == InnerPage(seps[mid + 1..], all[mid + 1..])
      && cells[mid].key == seps[mid]
  {
  }

  lemma InnerPageSame(t: Tree, i: nat, kid: Tree)
    requires t.Inner? && |t.kids| == |t.seps| + 1 && i < |t.kids| && kid.id == t.kids[i].id
    ensures InnerPage(NewSeps(t.seps, i, Fit), NewKids(t.kids, i, [kid])) == InnerPage(t.seps, t.kids)
  {
    var all := NewKids(t.kids, i, [kid]);
    assert forall j :: 0 <= j < |all| ==> all[j] == if j == i then kid else t.kids[j];
  }

  /** The entry is already in the leaf. */
  lemma LeafUnchanged(m: Limits, before: map<PageId, Node>, first: PageId, t: Tree, lo: int, hi: int,
                      last: Option<PageId>, c: Cell<Rid>)
    requires t.Leaf? && WF(m, t, 0, lo, hi) && Rep(before, t) && (forall p :: p in before ==> p < first)
    requires Chain(before, Leaves(t), last) && c in t.rows
    ensures Done(m, before, first, before, first, t, 0, lo, hi, last, c, Fit, [t])
  {
    FlatOne(t);
  }

  /** What a subtree needs before `c` is inserted below it. */
  ghost predicate Ready(m: Limits, pages: map<PageId, Node>, t: Tree, h: nat, lo: int, hi: int,
                        last: Option<PageId>, c: Cell<Rid>)
  {
    && WF(m, t, h, lo, hi) && Distinct(t) && Rep(pages, t) && Chain(pages, Leaves(t), last)
    && lo <= c.key < hi && forall x :: x in Flat(t) && x.key == c.key ==> x == c
  }

  /** The search rule leads to a child that is ready. */
  lemma ChildReady(m: Limits, pages: map<PageId, Node>, t: Tree, h: nat, lo: int, hi: int,
                   last: Option<PageId>, c: Cell<Rid>)
    requires t.Inner? && Ready(m, pages, t, h, lo, hi, last, c)
    ensures h > 0 && |t.kids| == |t.seps| + 1 && t.id in pages && pages[t.id] == InnerPage(t.seps, t.kids)
    ensures var i := Position(t.seps, c.key);
      Ready(m, pages, t.kids[i], h - 1, Low(t.seps, lo, i), High(t.seps, hi, i), LeafAfter(t, i, last), c)
  {
    var i := Position(t.seps, c.key);
    InnerPageUnique(pages, t);
    ChildInRange(t.seps, c.key, lo, hi);
    KidContents(t, i);
    ChainOfChild(m, pages, t, h, lo, hi, i, last);
  }

  /** After the child is done the parent can take its result in. */
  lemma ChildAbsorbable(m: Limits, before: map<PageId, Node>, first: PageId, mid: map<PageId, Node>, midNext: PageId,
                        t: Tree, h: nat, lo: int, hi: int, last: Option<PageId>, c: Cell<Rid>, i: nat,
                        inner: Outcome, kids: seq<Tree>)
    requires t.Inner? && Ready(m, before, t, h, lo, hi, last, c) && (forall p :: p in before ==> p < first)
    requires h > 0 && |t.kids| == |t.seps| + 1 && i == Position(t.seps, c.key)
    requires Done(m, before, first, mid, midNext, t.kids[i], h - 1, Low(t.seps, lo, i), High(t.seps, hi, i),
                  LeafAfter(t, i, last), c, inner, kids)
    ensures Absorbable(m, mid, midNext, t.id, NewSeps(t.seps, i, inner), NewKids(t.kids, i, kids), h, lo, hi, last)
  {
    hide WF;
    hide Rep;
    hide Distinct;
    NodeKept(m, before, first, mid, midNext, t, h, lo, hi, last, c, i, inner, kids);
    KidsReplaced(m, t, h, lo, hi, i, inner, kids);
    KidsStillStored(before, mid, first, midNext, t, i, kids);
    ChainReplaced(m, before, mid, t, h, lo, hi, i, kids, last);
  }

  /** Inserting below child `i` leaves the parent's own page alone, and a new separator falls right of child `i`. */
  lemma NodeKept(m: Limits, before: map<PageId, Node>, first: PageId, mid: map<PageId, Node>, midNext: PageId,
                 t: Tree, h: nat, lo: int, hi: int, last: Option<PageId>, c: Cell<Rid>, i: nat,
                 inner: Outcome, kids: seq<Tree>)
    requires t.Inner? && Ready(m, before, t, h, lo, hi, last, c)
    requires h > 0 && |t.kids| == |t.seps| + 1 && i == Position(t.seps, c.key)
    requires Done(m, before, first, mid, midNext, t.kids[i], h - 1, Low(t.seps, lo, i), High(t.seps, hi, i),
                  LeafAfter(t, i, last), c, inner, kids)
    ensures t.id in mid && mid[t.id] == InnerPage(t.seps, t.kids) && |t.seps| <= m.inner
    ensures |kids| == (if inner.Fit? then 1 else 2) && kids[0].id == t.kids[i].id
    ensures inner.Split? ==> inner.right == kids[1].id && Position(t.seps, inner.sep) == i
  {
    InnerPageUnique(before, t);
    if inner.Split? {
      PositionInside(t.seps, i, inner.sep, lo, hi);
    }
  }

  /** The child's result and the parent's absorption of it together are the result for the parent. */
  lemma ParentDone(m: Limits, before: map<PageId, Node>, first: PageId, mid: map<PageId, Node>, midNext: PageId,
                   after: map<PageId, Node>, next: PageId, t: Tree, h: nat, lo: int, hi: int, last: Option<PageId>,
                   c: Cell<Rid>, i: nat, inner: Outcome, kids: seq<Tree>, out: Outcome, ts: seq<Tree>)
    requires t.Inner? && Ready(m, before, t, h, lo, hi, last, c) && (forall p :: p in before ==> p < first)
    requires h > 0 && |t.kids| == |t.seps| + 1 && i == Position(t.seps, c.key)
    requires Done(m, before, first, mid, midNext, t.kids[i], h - 1, Low(t.seps, lo, i), High(t.seps, hi, i),
                  LeafAfter(t, i, last), c, inner, kids)
    requires Absorbed(m, mid, midNext, after, next, t.id, NewKids(t.kids, i, kids), h, lo, hi, last, out, ts)
    ensures Done(m, before, first, after, next, t, h, lo, hi, last, c, out, ts)
  {
    ChildInRange(t.seps, c.key, lo, hi);
    KidsStillStored(before, mid, first, midNext, t, i, kids);
    ContentsReplaced(m, t, h, lo, hi, i, kids, c);
    ChainReplaced(m, before, mid, t, h, lo, hi, i, kids, last);
    InnerDone(m, before, first, mid, midNext, after, next, t, h, lo, hi, last, c, i, inner, kids, out, ts);
  }

  // ---- the root ----

  lemma RootKept(m: Limits, before: map<PageId, Node>, first: PageId, after: map<PageId, Node>, next: PageId,
                 t: Tree, h: nat, c: Cell<Rid>, ts: seq<Tree>)
    requires Done(m, before, first, after, next, t, h, LOWEST, HIGHEST, None, c, Fit, ts)
    ensures |ts| == 1 && Stored(m, after, ts[0], h) && Added(Flat(t), Flat(ts[0]), c) && ts[0].id == t.id
  {
    assert ts == [ts[0]];
    FlatOne(ts[0]);
  }

  /** A root that split gets a new root above its two halves. */
  lemma RootGrown(m: Limits, before: map<PageId, Node>, first: PageId, mid: map<PageId, Node>, next: PageId,
                  t: Tree, h: nat, c: Cell<Rid>, sep: int, right: PageId, ts: seq<Tree>, after: map<PageId, Node>)
    requires Done(m, before, first, mid, next, t, h, LOWEST, HIGHEST, None, c, Split(sep, right), ts) && m.inner > 0
    requires after == mid[next := InnerNode(t.id, [Cell(sep, right)])]
    ensures Stored(m, after, Inner(next, [sep], ts), h + 1) && Added(Flat(t), Flat(Inner(next, [sep], ts)), c)
  {
    hide Rep;
    hide Distinct;
    hide Chain;
    hide Added;
    forall k | 0 <= k < |ts| ensures Ids(ts[k]) <= mid.Keys {
      RepIds(mid, ts[k]);
    }
    assert after[next] == InnerPage([sep], ts);
    KidsFramed(mid, after, ts, None);
    InnerStored(after, next, [sep], ts);
  }
}
