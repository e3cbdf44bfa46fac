/** The page cache: pinned frames, Clock eviction and the log-before-page rule, over a disk of pages. */
module BufferPool {
  import opened Common
  import B = Bytes
  import C = WalCodec
  import W = WriteAheadLog
  import P = PageBytes

  /** A page is its bytes; page ids have 32 bits. */
  type Page = P.Image

  function FreshPage(id: PageId): Page {
    P.Fresh(id % 0x1_0000_0000)
  }

  lemma FreshPageLsn(id: PageId)
    ensures P.PageLsn(FreshPage(id)) == 0
  {
    P.FreshLsn(id % 0x1_0000_0000);
  }

  datatype Frame = Frame(page: Page, owner: Option<PageId>, pins: nat, dirty: bool, referenced: bool)

  /** A pin on a frame. Taking the page for writing sets `mutated`; the frame learns of it on release. */
  class PageGuard {
    const pageId: PageId
    const frame: nat
    var mutated: bool

    constructor (pageId: PageId, frame: nat)
      ensures this.pageId == pageId && this.frame == frame && !mutated
    {
      this.pageId, this.frame, mutated := pageId, frame, false;
    }
  }

  // ---- the state behind the pool, as a value ----

  ghost function Holding(live: set<PageGuard>, f: nat): set<PageGuard> {
    set g | g in live && g.frame == f
  }

  /** `touched` are the frames that some live guard has taken for writing. */
  datatype Core = Core(fs: seq<Frame>, table: map<PageId, nat>, free: seq<nat>, disk: seq<Page>,
                             logged: Lsn, flushed: Lsn, live: set<PageGuard>, touched: set<nat>)

  /** No page sits in two frames, and the table knows exactly the owned frames. */
  ghost predicate TableOk(fs: seq<Frame>, table: map<PageId, nat>) {
    && (forall p :: p in table ==> table[p] < |fs| && fs[table[p]].owner == Some(p))
    && (forall f :: 0 <= f < |fs| && fs[f].owner.Some? ==> fs[f].owner.value in table && table[fs[f].owner.value] == f)
  }

  ghost predicate FreeOk(fs: seq<Frame>, free: seq<nat>) {
    && (forall i :: 0 <= i < |free| ==> free[i] < |fs| && fs[free[i]].owner == None && fs[free[i]].pins == 0)
    && (forall i, j :: 0 <= i < j < |free| ==> free[i] != free[j])
  }

  /** A frame's pin count is its number of live guards, and a pinned frame keeps its page. */
  ghost predicate PinsOk(fs: seq<Frame>, live: set<PageGuard>, touched: set<nat>) {
    && (forall f :: 0 <= f < |fs| ==> fs[f].pins == |Holding(live, f)|)
    && (forall g :: g in live ==> g.frame < |fs| && fs[g.frame].owner == Some(g.pageId))
    && (forall x :: x in touched ==> exists g :: g in live && g.frame == x)
  }

  /** Contents not on disk are in a frame that will still be written; nothing on disk is ahead of the log. */
  ghost predicate PagesOk(fs: seq<Frame>, disk: seq<Page>, logged: Lsn, flushed: Lsn, touched: set<nat>) {
    && (forall f :: 0 <= f < |fs| && fs[f].owner.Some? ==>
          && fs[f].owner.value < |disk| && P.PageLsn(fs[f].page) <= logged
          && (fs[f].page == disk[fs[f].owner.value] || fs[f].dirty || f in touched))
    && (forall p :: 0 <= p < |disk| ==> P.PageLsn(disk[p]) <= flushed)
    && flushed <= logged
  }

  ghost predicate Sound(c: Core) {
    && TableOk(c.fs, c.table) && FreeOk(c.fs, c.free) && PinsOk(c.fs, c.live, c.touched)
    && PagesOk(c.fs, c.disk, c.logged, c.flushed, c.touched)
  }

  /** The contents of page `p` as everyone sees them: its frame if it has one, else the disk. */
  ghost function Seen(fs: seq<Frame>, table: map<PageId, nat>, disk: seq<Page>, p: PageId): Page
    requires p < |disk|
  {
    if p in table && table[p] < |fs| then fs[table[p]].page else disk[p]
  }

  ghost function View(c: Core): (v: seq<Page>)
    ensures |v| == |c.disk|
  {
    seq(|c.disk|, p requires 0 <= p < |c.disk| => Seen(c.fs, c.table, c.disk, p))
  }

  /** A page's last contents went to disk, and the log before them as far as they need it; nothing else that anyone
      sees has changed. */
  ghost predicate WroteBack(c: Core, c': Core, p: PageId) {
    && p < |c.disk| && View(c') == View(c) && c'.logged == c.logged
    && c'.disk == c.disk[p := View(c)[p]]
    && c'.flushed == if c.flushed >= P.PageLsn(View(c)[p]) then c.flushed else c.logged
  }

  /** Nothing that reaches the disk or a reader has changed. */
  ghost predicate Quiet(c: Core, c': Core) {
    View(c') == View(c) && c'.disk == c.disk && c'.logged == c.logged && c'.flushed == c.flushed
  }

  /** The pool's own doing, between the writes of its users: nothing, or one page on its way to disk. */
  ghost predicate Moved(c: Core, c': Core) {
    Quiet(c, c') || exists p: PageId :: WroteBack(c, c', p)
  }

  /** The file has grown by an empty page. */
  ghost predicate Added(c: Core, c': Core) {
    && c'.disk == c.disk + [FreshPage(|c.disk|)] && View(c') == View(c) + [FreshPage(|c.disk|)]
    && c'.logged == c.logged && c'.flushed == c.flushed
  }

  /** One move after the other. */
  ghost predicate Trail(cs: seq<Core>) {
    |cs| > 0 && forall i :: 0 <= i < |cs| - 1 ==> Moved(cs[i], cs[i + 1])
  }

  lemma MovedThenQuiet(a: Core, b: Core, c: Core)
    requires Moved(a, b) && Quiet(b, c)
    ensures Moved(a, c)
  {
    hide View;
    if p: PageId :| WroteBack(a, b, p) {
      assert WroteBack(a, c, p);
    }
  }

  lemma QuietThenMoved(a: Core, b: Core, c: Core)
    requires Quiet(a, b) && Moved(b, c)
    ensures Moved(a, c)
  {
    hide View;
    if p: PageId :| WroteBack(b, c, p) {
      assert WroteBack(a, c, p);
    }
  }

  // ---- what each transition keeps ----

  lemma HoldingGains(live: set<PageGuard>, g: PageGuard)
    requires g !in live
    ensures forall f: nat :: |Holding(live + {g}, f)| == |Holding(live, f)| + if f == g.frame then 1 else 0
  {
    forall f: nat ensures |Holding(live + {g}, f)| == |Holding(live, f)| + if f == g.frame then 1 else 0 {
      assert Holding(live + {g}, f) == if f == g.frame then Holding(live, f) + {g} else Holding(live, f);
    }
  }

  lemma HoldingLoses(live: set<PageGuard>, g: PageGuard)
    requires g in live
    ensures forall f: nat :: |Holding(live - {g}, f)| == |Holding(live, f)| - if f == g.frame then 1 else 0
  {
    assert live - {g} + {g} == live;
    HoldingGains(live - {g}, g);
  }

  lemma Pinned(c: Core, g: PageGuard)
    requires PinsOk(c.fs, c.live, c.touched) && g in c.live
    ensures c.fs[g.frame].pins > 0
  {
    assert g in Holding(c.live, g.frame);
  }

  /** Another pin on a resident page. */
  lemma PinKeeps(c: Core, g: PageGuard, c': Core)
    requires Sound(c) && g !in c.live && g.pageId in c.table && g.frame == c.table[g.pageId]
    requires var f := g.frame;
      c' == c.(fs := c.fs[f := c.fs[f].(pins := c.fs[f].pins + 1, referenced := true)], live := c.live + {g})
    ensures Sound(c') && View(c') == View(c)
  {
    HoldingGains(c.live, g);
    assert PinsOk(c'.fs, c'.live, c'.touched) by {
      hide TableOk;
      hide FreeOk;
      hide PagesOk;
    }
    hide PinsOk;
    assert TableOk(c'.fs, c'.table) && FreeOk(c'.fs, c'.free) by {
      hide PagesOk;
    }
    hide FreeOk;
  }

  lemma ReleaseKeeps(c: Core, g: PageGuard, mutated: bool, c': Core)
    requires Sound(c) && g in c.live && c.fs[g.frame].pins > 0
    requires var f := g.frame;
      c' == c.(fs := c.fs[f := c.fs[f].(pins := c.fs[f].pins - 1, dirty := c.fs[f].dirty || mutated)],
               live := c.live - {g}, touched := c'.touched)
    requires forall x :: x in c'.touched ==> exists h :: h in c'.live && h.frame == x
    requires forall x :: x in c.touched ==> x in c'.touched || (x == g.frame && mutated)
    ensures Sound(c') && View(c') == View(c)
  {
    HoldingLoses(c.live, g);
    assert PinsOk(c'.fs, c'.live, c'.touched) by {
      hide TableOk;
      hide FreeOk;
      hide PagesOk;
    }
    hide PinsOk;
    assert TableOk(c'.fs, c'.table) && FreeOk(c'.fs, c'.free) by {
      hide PagesOk;
    }
    hide FreeOk;
  }

  /** Dropping an unpinned frame's page, after writing it back when it is dirty and its records are durable. */
  lemma EvictKeeps(c: Core, f: nat, c': Core)
    requires Sound(c) && f < |c.fs| && c.fs[f].pins == 0 && c.fs[f].owner.Some?
    requires c.flushed <= c'.flushed <= c'.logged && c.logged == c'.logged
    requires c.fs[f].dirty ==> P.PageLsn(c.fs[f].page) <= c'.flushed
    requires c.fs[f].owner.value < |c.disk|
    requires var p := c.fs[f].owner.value;
      c' == c.(fs := c.fs[f := Frame(c.fs[f].page, None, 0, false, false)], table := c.table - {p},
               disk := if c.fs[f].dirty then c.disk[p := c.fs[f].page] else c.disk, flushed := c'.flushed)
    ensures Sound(c') && View(c') == View(c)
  {
    hide PagesOk;
    Unpinned(c, f);
    EvictPages(c, f, c');
    assert TableOk(c'.fs, c'.table) && FreeOk(c'.fs, c'.free) && PinsOk(c'.fs, c'.live, c'.touched);
    assert View(c') == View(c) by {
      hide FreeOk;
      hide PinsOk;
    }
  }

  lemma EvictPages(c: Core, f: nat, c': Core)
    requires PagesOk(c.fs, c.disk, c.logged, c.flushed, c.touched) && f < |c.fs| && c.fs[f].owner.Some? &&
      f !in c.touched && TableOk(c.fs, c.table)
    requires c.flushed <= c'.flushed <= c'.logged && c.logged == c'.logged
    requires c.fs[f].dirty ==> P.PageLsn(c.fs[f].page) <= c'.flushed
    requires c.fs[f].owner.value < |c.disk| && c'.fs == c.fs[f := Frame(c.fs[f].page, None, 0, false, false)]
    requires c'.disk == (if c.fs[f].dirty then c.disk[c.fs[f].owner.value := c.fs[f].page] else c.disk)
    requires c'.touched == c.touched
    ensures PagesOk(c'.fs, c'.disk, c'.logged, c'.flushed, c'.touched) && c'.disk[c.fs[f].owner.value] == c.fs[f].page
  {
  }

  lemma Unpinned(c: Core, f: nat)
    requires PinsOk(c.fs, c.live, c.touched) && f < |c.fs| && c.fs[f].pins == 0
    ensures f !in c.touched && forall g :: g in c.live ==> g.frame != f
  {
    assert Holding(c.live, f) == {};
    forall g | g in c.live ensures g.frame != f {
      assert g.frame == f ==> g in Holding(c.live, f);
    }
  }

  lemma ResetKeeps(c: Core, f: nat, c': Core)
    requires Sound(c) && f < |c.fs| && c.fs[f].pins == 0 && c.fs[f].owner == None
    requires c' == c.(fs := c.fs[f := Frame(c.fs[f].page, None, 0, false, false)])
    ensures Sound(c') && View(c') == View(c)
  {
  }

  /** A page moves into a frame without one, pinned by its first guard. */
  lemma InstallKeeps(c: Core, g: PageGuard, page: Page, dirty: bool, c': Core)
    requires Sound(c) && g !in c.live && g.frame < |c.fs| && c.fs[g.frame].owner == None && c.fs[g.frame].pins == 0
    requires g.frame !in c.free && g.pageId !in c.table && g.pageId < |c.disk|
    requires (page == c.disk[g.pageId] || dirty) && P.PageLsn(page) <= c.logged
    requires c' == c.(fs := c.fs[g.frame := Frame(page, Some(g.pageId), 1, dirty, true)],
                      table := c.table[g.pageId := g.frame], live := c.live + {g})
    ensures Sound(c') && View(c') == View(c)[g.pageId := page]
  {
    InstallPins(c, g, page, dirty, c');
    InstallTable(c, g, page, dirty, c');
    hide PinsOk;
    hide FreeOk;
  }

  lemma InstallTable(c: Core, g: PageGuard, page: Page, dirty: bool, c': Core)
    requires TableOk(c.fs, c.table) && FreeOk(c.fs, c.free) && g.frame < |c.fs| && c.fs[g.frame].owner == None
    requires g.frame !in c.free && g.pageId !in c.table
    requires c'.fs == c.fs[g.frame := Frame(page, Some(g.pageId), 1, dirty, true)]
    requires c'.table == c.table[g.pageId := g.frame] && c'.free == c.free
    ensures TableOk(c'.fs, c'.table) && FreeOk(c'.fs, c'.free)
  {
  }

  lemma InstallPins(c: Core, g: PageGuard, page: Page, dirty: bool, c': Core)
    requires PinsOk(c.fs, c.live, c.touched) && g !in c.live && g.frame < |c.fs| && c.fs[g.frame].owner == None &&
      c.fs[g.frame].pins == 0
    requires c'.fs == c.fs[g.frame := Frame(page, Some(g.pageId), 1, dirty, true)]
    requires c'.live == c.live + {g} && c'.touched == c.touched
    ensures PinsOk(c'.fs, c'.live, c'.touched)
  {
    HoldingGains(c.live, g);
  }

  lemma WriteKeeps(c: Core, g: PageGuard, page: Page, c': Core)
    requires Sound(c) && g in c.live && g.frame < |c.fs| && P.PageLsn(page) <= c.logged
    requires c' == c.(fs := c.fs[g.frame := c.fs[g.frame].(page := page)], touched := c.touched + {g.frame})
    ensures Sound(c') && g.pageId < |c.disk| && View(c') == View(c)[g.pageId := page]
  {
    assert PinsOk(c'.fs, c'.live, c'.touched) by {
      hide TableOk;
      hide FreeOk;
      hide PagesOk;
    }
    hide PinsOk;
    assert TableOk(c'.fs, c'.table) && FreeOk(c'.fs, c'.free) by {
      hide PagesOk;
    }
    hide FreeOk;
  }

  lemma FlushFrameKeeps(c: Core, f: nat, c': Core)
    requires Sound(c) && f < |c.fs| && c.fs[f].owner.Some? && P.PageLsn(c.fs[f].page) <= c'.flushed
    requires c.flushed <= c'.flushed <= c'.logged == c.logged
    requires c.fs[f].owner.value < |c.disk|
    requires var p := c.fs[f].owner.value;
      c' == c.(fs := c.fs[f := c.fs[f].(dirty := false)], disk := c.disk[p := c.fs[f].page], flushed := c'.flushed)
    ensures Sound(c') && View(c') == View(c)
  {
    assert PinsOk(c'.fs, c'.live, c'.touched) by {
      hide TableOk;
      hide FreeOk;
      hide PagesOk;
    }
    hide PinsOk;
    assert TableOk(c'.fs, c'.table) && FreeOk(c'.fs, c'.free) by {
      hide PagesOk;
    }
    hide FreeOk;
  }

  /** Only reference bits differ. */
  ghost predicate SameButReferenced(a: seq<Frame>, b: seq<Frame>) {
    |a| == |b| && forall f :: 0 <= f < |a| ==> b[f] == a[f].(referenced := b[f].referenced)
  }

  lemma ReferencedKeeps(c: Core, c': Core)
    requires Sound(c) && SameButReferenced(c.fs, c'.fs) && c' == c.(fs := c'.fs)
    ensures Sound(c') && View(c') == View(c)
  {
  }

  lemma LogKeeps(c: Core, c': Core)
    requires Sound(c) && c.flushed <= c'.flushed <= c'.logged && c.logged <= c'.logged
    requires c' == c.(flushed := c'.flushed, logged := c'.logged)
    ensures Sound(c') && View(c') == View(c)
  {
  }

  lemma AppendDiskKeeps(c: Core, page: Page, c': Core)
    requires Sound(c) && P.PageLsn(page) <= c.flushed && c' == c.(disk := c.disk + [page])
    ensures Sound(c') && View(c') == View(c) + [page]
  {
    assert |c.disk| !in c.table;
  }

  lemma FreeFrameKeeps(c: Core, free: seq<nat>, c': Core)
    requires Sound(c) && c' == c.(free := free) && FreeOk(c.fs, free)
    ensures Sound(c') && View(c') == View(c)
  {
  }

  lemma NextHand(f: nat, cap: nat)
    requires f < cap
    ensures (f + 1) % cap == if f + 1 == cap then 0 else f + 1
  {
    B.Remainder(f + 1, cap, if f + 1 == cap then 1 else 0, if f + 1 == cap then 0 else f + 1);
  }

  /** Where the clock hand is after `k` steps. */
  function HandAt(start: nat, k: nat, cap: nat): nat
    requires start < cap && k <= 2 * cap
  {
    if start + k < cap then start + k else if start + k < 2 * cap then start + k - cap else start + k - 2 * cap
  }

  /** What `k` steps of the hand do, none of which found a victim: every frame it met in the first turn was pinned or
      referenced, and lost its bit unless it was pinned; every frame it met in the second turn was pinned. */
  ghost predicate Swept(before: seq<Frame>, now: seq<Frame>, start: nat, k: nat)
    requires start < |before| && k <= 2 * |before|
  {
    var cap := |before|;
    && |now| == cap
    && (forall j :: 0 <= j < cap ==> now[HandAt(start, j, cap)] == AfterPass(before[HandAt(start, j, cap)], j < k))
    && (forall j :: 0 <= j < k && j < cap ==> !Choosable(before[HandAt(start, j, cap)]))
    && (forall j :: cap <= j < k ==> before[HandAt(start, j, cap)].pins > 0)
  }

  /** Nobody has the frame pinned, or used it since the hand last came by. */
  predicate Choosable(f: Frame) { f.pins == 0 && !f.referenced }

  function AfterPass(f: Frame, passed: bool): Frame {
    if passed && f.pins == 0 then f.(referenced := false) else f
  }

  /** The frame after `k` steps is the victim: in the first turn the first frame that can be chosen, in the second turn,
      when there was none, the first that is not pinned. */
  ghost predicate Chosen(before: seq<Frame>, start: nat, k: nat)
    requires start < |before| && k < 2 * |before|
  {
    if k < |before| then Choosable(before[HandAt(start, k, |before|)]) else before[HandAt(start, k, |before|)].pins == 0
  }

  lemma SweptAll(before: seq<Frame>, now: seq<Frame>, start: nat)
    requires start < |before| && Swept(before, now, start, 2 * |before|)
    ensures forall f :: 0 <= f < |before| ==> before[f].pins > 0
  {
    forall f | 0 <= f < |before| ensures before[f].pins > 0 {
      var j := |before| + if start <= f then f - start else f + |before| - start;
      assert HandAt(start, j, |before|) == f;
    }
  }

  lemma SweptSame(before: seq<Frame>, now: seq<Frame>, start: nat, k: nat)
    requires start < |before| && k <= 2 * |before| && Swept(before, now, start, k)
    ensures SameButReferenced(before, now)
  {
    forall f | 0 <= f < |before| ensures now[f] == before[f].(referenced := now[f].referenced) {
      var j := if start <= f then f - start else f + |before| - start;
      assert HandAt(start, j, |before|) == f;
    }
  }

  /** What the frame under the hand looks like after `k` steps. */
  lemma UnderHand(before: seq<Frame>, now: seq<Frame>, start: nat, k: nat)
    requires start < |before| && k < 2 * |before| && Swept(before, now, start, k)
    ensures var f := HandAt(start, k, |before|);
      && f < |now| && now[f].pins == before[f].pins
      && (now[f].pins == 0 ==> (!now[f].referenced <==> Chosen(before, start, k)))
  {
    if k >= |before| {
      assert HandAt(start, k - |before|, |before|) == HandAt(start, k, |before|);
    }
  }

  lemma SweptOne(before: seq<Frame>, now: seq<Frame>, start: nat, k: nat, now': seq<Frame>)
    requires start < |before| && k < 2 * |before| && Swept(before, now, start, k)
    requires var f := HandAt(start, k, |before|);
      && |now| == |before|
      && (if now[f].pins > 0 then now' == now
          else now[f].referenced && now' == now[f := AfterPass(now[f], true)])
    ensures Swept(before, now', start, k + 1)
  {
    UnderHand(before, now, start, k);
    if k >= |before| {
      assert HandAt(start, k - |before|, |before|) == HandAt(start, k, |before|);
    }
  }

  // ---- what a method may rely on ----

  lemma LogStarted(wal: W.WalManager)
    requires wal.Valid()
    ensures wal.nextLsn > 0 && wal.flushedLsn < wal.nextLsn
  {
  }

  lemma Resident(c: Core, p: PageId)
    requires Sound(c) && p in c.table
    ensures c.table[p] < |c.fs| && c.fs[c.table[p]].owner == Some(p) && p < |c.disk|
    ensures P.PageLsn(c.fs[c.table[p]].page) <= c.logged
    ensures View(c)[p] == c.fs[c.table[p]].page
  {
  }

  lemma Absent(c: Core, p: PageId)
    requires Sound(c) && p !in c.table && p < |c.disk|
    ensures P.PageLsn(c.disk[p]) <= c.flushed <= c.logged && View(c)[p] == c.disk[p]
  {
  }

  lemma Owned(c: Core, f: nat)
    requires Sound(c) && f < |c.fs| && c.fs[f].owner.Some?
    ensures var p := c.fs[f].owner.value; p in c.table && c.table[p] == f && p < |c.disk|
    ensures P.PageLsn(c.fs[f].page) <= c.logged
  {
  }

  lemma AtEnd(c: Core)
    requires Sound(c)
    ensures |c.disk| !in c.table
  {
  }

  lemma OwnedNotFree(c: Core, f: nat)
    requires Sound(c) && f < |c.fs| && c.fs[f].owner.Some?
    ensures f !in c.free
  {
  }

  lemma FreeMore(c: Core, f: nat)
    requires Sound(c) && f < |c.fs| && f !in c.free && c.fs[f].owner == None && c.fs[f].pins == 0
    ensures FreeOk(c.fs, c.free + [f])
  {
  }

  lemma FreeLess(c: Core)
    requires Sound(c) && c.free != []
    ensures var n := |c.free| - 1; FreeOk(c.fs, c.free[..n]) && c.free[n] !in c.free[..n]
    ensures var f := c.free[|c.free| - 1]; f < |c.fs| && c.fs[f].owner == None && c.fs[f].pins == 0
  {
  }

  lemma Held(c: Core, g: PageGuard)
    requires Sound(c) && g in c.live
    ensures g.frame < |c.fs| && c.fs[g.frame].pins > 0 && g.pageId < |c.disk| && View(c)[g.pageId] == c.fs[g.frame].page
  {
    Pinned(c, g);
  }

  lemma TouchedHeld(c: Core)
    requires Sound(c)
    ensures forall x :: x in c.touched ==> exists g :: g in c.live && g.frame == x
  {
  }

  /** A clean frame that nobody has taken for writing agrees with the disk. */
  lemma CleanOnDisk(c: Core, p: PageId)
    requires Sound(c) && p < |c.disk|
    requires p in c.table ==> c.table[p] !in c.touched && c.table[p] < |c.fs| && !c.fs[c.table[p]].dirty
    ensures c.disk[p] == View(c)[p]
  {
  }

  // ---- the pool ----

  class BufferPool {
    const frames: array<Frame>
    const wal: W.WalManager
    var table: map<PageId, nat>
    var freeFrames: seq<nat>
    var freePages: seq<PageId>
    var arm: nat
    var disk: seq<Page>

    /** The guards that have not been dropped. */
    ghost var live: set<PageGuard>

    ghost function Touched(): set<nat>
      reads this`live, live
    {
      set g | g in live && g.mutated :: g.frame
    }

    ghost function State(): Core
      reads this, frames, wal, live
    {
      var logged := if wal.nextLsn == 0 then 0 else wal.nextLsn - 1;
      Core(frames[..], table, freeFrames, disk, logged, wal.flushedLsn, live, Touched())
    }

    ghost predicate Valid()
      reads this, frames, wal, live
    {
      frames.Length > 0 && arm < frames.Length && wal.Valid() && Sound(State())
    }

    /** What every page holds, wherever it is. */
    ghost function Contents(): seq<Page>
      reads this, frames, wal, live
    {
      View(State())
    }

    constructor (capacity: nat, wal: W.WalManager, disk: seq<Page>)
      requires wal.Valid() && forall p :: 0 <= p < |disk| ==> P.PageLsn(disk[p]) <= wal.flushedLsn
      ensures Valid() && Contents() == disk && live == {} && this.wal == wal && fresh(frames)
      ensures frames.Length == if capacity == 0 then 1 else capacity
    {
      var n := if capacity == 0 then 1 else capacity;
      this.wal, this.disk := wal, disk;
      frames := new Frame[n](_ => Frame(FreshPage(0), None, 0, false, false));
      table, freePages, arm, live := map[], [], 0, {};
      freeFrames := seq(n, i requires 0 <= i < n => n - 1 - i);
      new;
      assert forall f: nat :: Holding({}, f) == {};
    }

    /** The clock hand: two turns at most; fails only when every frame is pinned. A frame used since the hand last came
        by is passed over once and loses its reference bit. */
    method Victim() returns (victim: Option<nat>, ghost steps: nat)
      requires frames.Length > 0 && arm < frames.Length
      modifies frames, this`arm
      ensures arm < frames.Length && SameButReferenced(old(frames[..]), frames[..])
      ensures victim == None <==> forall f :: 0 <= f < frames.Length ==> frames[f].pins > 0
      ensures victim.Some? ==> victim.value < frames.Length && frames[victim.value].pins == 0
      ensures victim.Some? ==>
        && steps < 2 * frames.Length && Swept(old(frames[..]), frames[..], old(arm), steps)
        && victim.value == HandAt(old(arm), steps, frames.Length) && Chosen(old(frames[..]), old(arm), steps)
        && arm == (victim.value + 1) % frames.Length
    {
      var cap := frames.Length;
      ghost var start := arm;
      ghost var before := frames[..];
      steps := 0;
      var k := 0;
      while k < cap * 2
        invariant 0 <= k <= cap * 2 && arm == HandAt(start, k, cap)
        invariant Swept(before, frames[..], start, k)
      {
        var f := arm;
        NextHand(f, cap);
        arm := (arm + 1) % cap;
        ghost var now := frames[..];
        UnderHand(before, now, start, k);
        if frames[f].pins == 0 {
          if !frames[f].referenced {
            steps := k;
            SweptSame(before, now, start, k);
            return Some(f), steps;
          }
          frames[f] := frames[f].(referenced := false);
        }
        SweptOne(before, now, start, k, frames[..]);
        k := k + 1;
      }
      victim := None;
      SweptAll(before, frames[..], start);
      SweptSame(before, frames[..], start, k);
    }

    /** Takes the page out of a frame nobody pins, writing it back first when it is dirty: the log is forced
        up to the page's LSN before the page is written. */
    method Evict(f: nat)
      requires Valid() && f < frames.Length && frames[f].pins == 0
      modifies this`table, this`disk, frames, wal
      ensures Valid() && Contents() == old(Contents()) && wal.nextLsn == old(wal.nextLsn)
      ensures frames[..] == old(frames[..])[f := Frame(old(frames[f].page), None, 0, false, false)]
      ensures table == match old(frames[f].owner) case None => old(table) case Some(p) => old(table) - {p}
      ensures if old(frames[f].owner.Some? && frames[f].dirty)
        then WroteBack(old(State()), State(), old(frames[f].owner.value))
        else Quiet(old(State()), State())
      ensures Moved(old(State()), State())
    {
      hide Sound;
      hide View;
      hide W.WalManager.Valid;
      LogStarted(wal);
      ghost var c := State();
      match frames[f].owner {
        case Some(p) =>
          Owned(c, f);
          Resident(c, p);
          if frames[f].dirty {
            wal.FlushTo(P.PageLsn(frames[f].page));
            disk := disk[p := frames[f].page];
          }
          table := table - {p};
        case None =>
      }
      frames[f] := Frame(frames[f].page, None, 0, false, false);
      assert frames[..] == c.fs[f := frames[f]];
      if c.fs[f].owner.Some? {
        EvictKeeps(c, f, State());
      } else {
        ResetKeeps(c, f, State());
      }
    }

    /** A frame without a page: a free one, or an evicted victim. Fails only when every frame is pinned. */
    method PickOrEvict() returns (r: Result<nat>)
      requires Valid()
      modifies this`table, this`disk, this`freeFrames, this`arm, frames, wal
      ensures Valid() && Contents() == old(Contents()) && wal.nextLsn == old(wal.nextLsn)
      ensures r.Err? <==> old(freeFrames) == [] && forall f :: 0 <= f < frames.Length ==> old(frames[f].pins) > 0
      ensures r.Ok? ==> r.value < frames.Length && r.value !in freeFrames
      ensures r.Ok? ==> frames[r.value].owner == None && frames[r.value].pins == 0
      ensures |disk| == |old(disk)| && Moved(old(State()), State())
      ensures old(freeFrames) != [] ==> r == Ok(old(freeFrames)[|old(freeFrames)| - 1]) && frames[..] == old(frames[..])
      ensures table.Keys <= old(table).Keys
    {
      hide Sound;
      hide View;
      hide W.WalManager.Valid;
      LogStarted(wal);
      ghost var c := State();
      if freeFrames != [] {
        FreeLess(c);
        var f := freeFrames[|freeFrames| - 1];
        freeFrames := freeFrames[..|freeFrames| - 1];
        FreeFrameKeeps(c, freeFrames, State());
        return Ok(f);
      }
      var victim, steps := Victim();
      ReferencedKeeps(c, State());
      match victim {
        case None => return Err;
        case Some(f) =>
          ghost var d := State();
          Evict(f);
          QuietThenMoved(c, d, State());
          return Ok(f);
      }
    }

    /** Puts a page into an empty frame, with a first guard on it. */
    method Install(p: PageId, f: nat, page: Page, dirty: bool) returns (g: PageGuard)
      requires Valid() && f < frames.Length && f !in freeFrames && frames[f].owner == None && frames[f].pins == 0
      requires p < |disk| && p !in table && (page == disk[p] || dirty) && P.PageLsn(page) < wal.nextLsn
      modifies this`table, this`live, frames
      ensures Valid() && Contents() == old(Contents())[p := page]
      ensures fresh(g) && live == old(live) + {g} && g.pageId == p && g.frame == f && !g.mutated
      ensures frames[f] == Frame(page, Some(p), 1, dirty, true)
      ensures disk == old(disk) && wal.flushedLsn == old(wal.flushedLsn) && wal.nextLsn == old(wal.nextLsn)
    {
      hide Sound;
      hide View;
      hide W.WalManager.Valid;
      LogStarted(wal);
      ghost var c := State();
      frames[f] := Frame(page, Some(p), 1, dirty, true);
      table := table[p := f];
      g := new PageGuard(p, f);
      live := live + {g};
      assert frames[..] == c.fs[f := frames[f]];
      assert Touched() == c.touched;
      InstallKeeps(c, g, page, dirty, State());
    }

    /** Pins a page. Its contents are the last ones written, and no page's contents change. */
    method FetchPage(p: PageId) returns (r: Result<PageGuard>)
      requires Valid()
      modifies this, frames, wal
      ensures Valid() && Contents() == old(Contents()) && wal.nextLsn == old(wal.nextLsn)
      ensures Moved(old(State()), State())
      ensures r.Err? <==>
        && p !in old(table)
        && (p >= |old(disk)| ||
            (old(freeFrames) == [] && forall f :: 0 <= f < frames.Length ==> old(frames[f].pins) > 0))
      ensures r.Err? ==> live == old(live)
      ensures r.Ok? ==> fresh(r.value) && live == old(live) + {r.value} && r.value.pageId == p && !r.value.mutated
      ensures r.Ok? ==> r.value.frame < frames.Length && frames[r.value.frame].referenced
    {
      hide Sound;
      hide View;
      hide W.WalManager.Valid;
      LogStarted(wal);
      ghost var c := State();
      if p in table {
        Resident(c, p);
        var f := table[p];
        frames[f] := frames[f].(pins := frames[f].pins + 1, referenced := true);
        var g := new PageGuard(p, f);
        live := live + {g};
        assert frames[..] == c.fs[f := frames[f]] && Touched() == c.touched;
        PinKeeps(c, g, State());
        return Ok(g);
      }
      var picked := PickOrEvict();
      match picked {
        case Err => return Err;
        case Ok(f) =>
          if p >= |disk| {
            return Err;
          }
          ghost var d := State();
          Absent(d, p);
          var g := Install(p, f, disk[p], false);
          MovedThenQuiet(c, d, State());
          return Ok(g);
      }
    }

    /** Frees the frame of a page that nobody uses any more. */
    method DropStale(p: PageId)
      requires Valid() && p in table && table[p] < frames.Length && frames[table[p]].pins == 0
      modifies this`table, this`disk, this`freeFrames, frames, wal
      ensures Valid() && Contents() == old(Contents()) && wal.nextLsn == old(wal.nextLsn)
      ensures p !in table && freeFrames != []
    {
      hide Sound;
      hide View;
      hide W.WalManager.Valid;
      LogStarted(wal);
      ghost var c := State();
      Resident(c, p);
      OwnedNotFree(c, table[p]);
      var stale := table[p];
      Evict(stale);
      ghost var d := State();
      freeFrames := freeFrames + [stale];
      FreeMore(d, stale);
      FreeFrameKeeps(d, freeFrames, State());
    }

    /** A page for new contents: a recycled one, or one more at the end of the file. */
    method NewPage() returns (r: Result<PageGuard>)
      requires Valid()
      requires freePages != [] ==> var p := freePages[|freePages| - 1];
        p < |disk| && (p in table ==> frames[table[p]].pins == 0)
      modifies this, frames, wal
      ensures Valid()
      ensures r.Err? ==> live == old(live)
      ensures r.Err? ==> Contents() == old(Contents()) + if old(freePages) != [] then [] else [FreshPage(|old(disk)|)]
      ensures r.Ok? ==> fresh(r.value) && live == old(live) + {r.value} && !r.value.mutated
      ensures r.Ok? ==> var p := r.value.pageId;
        if old(freePages) != [] then p < |old(disk)| && Contents() == old(Contents())[p := FreshPage(p)]
        else p == |old(disk)| && Contents() == old(Contents()) + [FreshPage(p)]
      ensures old(freePages) == [] ==> exists d :: Added(old(State()), d) && Moved(d, State())
    {
      hide Sound;
      hide View;
      hide W.WalManager.Valid;
      LogStarted(wal);
      ghost var c := State();
      var p;
      if freePages != [] {
        p := freePages[|freePages| - 1];
        freePages := freePages[..|freePages| - 1];
        assert State() == c;
        if p in table {
          Resident(c, p);
          DropStale(p);
        }
      } else {
        p := |disk|;
        AtEnd(c);
        disk := disk + [FreshPage(p)];
        FreshPageLsn(p);
        AppendDiskKeeps(c, FreshPage(p), State());
        assert Added(c, State());
      }
      ghost var d := State();
      var picked := PickOrEvict();
      match picked {
        case Err => return Err;
        case Ok(f) =>
          FreshPageLsn(p);
          ghost var e := State();
          var g := Install(p, f, FreshPage(p), true);
          if |d.disk| > |c.disk| {
            assert View(e)[p := FreshPage(p)] == View(e);
            MovedThenQuiet(d, e, State());
          }
          return Ok(g);
      }
    }

    /** Reading through a guard gives the page's contents. */
    method Read(g: PageGuard) returns (page: Page)
      requires Valid() && g in live
      ensures g.pageId < |disk| && page == Contents()[g.pageId]
    {
      hide Sound;
      hide View;
      hide W.WalManager.Valid;
      LogStarted(wal);
      Held(State(), g);
      page := frames[g.frame].page;
    }

    /** Writing through a guard changes the contents of its page and of no other. */
    method Write(g: PageGuard, page: Page)
      requires Valid() && g in live && P.PageLsn(page) < wal.nextLsn
      modifies g, frames
      ensures Valid() && g.mutated && live == old(live)
      ensures g.pageId < |disk| && Contents() == old(Contents())[g.pageId := page]
    {
      hide Sound;
      hide View;
      hide W.WalManager.Valid;
      LogStarted(wal);
      ghost var c := State();
      Held(c, g);
      g.mutated := true;
      frames[g.frame] := frames[g.frame].(page := page);
      assert frames[..] == c.fs[g.frame := frames[g.frame]] && Touched() == c.touched + {g.frame};
      WriteKeeps(c, g, page, State());
    }

    /** Dropping a guard: the frame becomes dirty if the guard wrote, and has one pin less. */
    method Release(g: PageGuard)
      requires Valid() && g in live
      modifies this`live, frames
      ensures Valid() && Contents() == old(Contents()) && live == old(live) - {g}
      ensures frames[g.frame].pins == old(frames[g.frame].pins) - 1 && Quiet(old(State()), State())
    {
      hide Sound;
      hide View;
      hide W.WalManager.Valid;
      LogStarted(wal);
      ghost var c := State();
      Held(c, g);
      TouchedHeld(c);
      var f := g.frame;
      frames[f] := frames[f].(dirty := frames[f].dirty || g.mutated, pins := frames[f].pins - 1);
      live := live - {g};
      assert frames[..] == c.fs[f := frames[f]];
      ReleaseKeeps(c, g, g.mutated, State());
    }

    /** Appending to the log leaves every page as it is; only pages written from now on may carry the new LSN. */
    method LogRecord(txn: B.U64, prev: B.U64, kind: C.Kind) returns (lsn: Lsn)
      requires Valid() && W.Sizable(kind) && wal.nextLsn < 0x1_0000_0000_0000_0000
      modifies wal
      ensures Valid() && Contents() == old(Contents()) && lsn == old(wal.nextLsn) && wal.nextLsn == lsn + 1
    {
      hide Sound;
      hide View;
      hide W.WalManager.Valid;
      LogStarted(wal);
      ghost var c := State();
      lsn := wal.Append(txn, prev, kind);
      LogStarted(wal);
      LogKeeps(c, State());
    }

    /** Vacuum hands back a page it has unlinked everywhere. */
    method RecyclePage(p: PageId)
      requires Valid()
      modifies this`freePages
      ensures Valid() && Contents() == old(Contents()) && freePages == old(freePages) + [p]
    {
      hide Sound;
      hide View;
      hide W.WalManager.Valid;
      ghost var c := State();
      freePages := freePages + [p];
      assert State() == c;
    }

    /** Forces one page: afterwards the disk has its contents, unless a guard that wrote is still out. */
    method FlushPage(p: PageId)
      requires Valid()
      modifies this`disk, frames, wal
      ensures Valid() && Contents() == old(Contents()) && table == old(table) && |disk| == |old(disk)|
      ensures p < |disk| && (p in table ==> table[p] !in Touched()) ==> disk[p] == Contents()[p]
      ensures WroteBack(old(State()), State(), p) || Quiet(old(State()), State())
      ensures p in table && table[p] < frames.Length && old(frames[table[p]].dirty) ==>
        WroteBack(old(State()), State(), p)
    {
      hide Sound;
      hide View;
      hide W.WalManager.Valid;
      LogStarted(wal);
      if p in table {
        ghost var c := State();
        Resident(c, p);
        var f := table[p];
        if frames[f].dirty {
          wal.FlushTo(P.PageLsn(frames[f].page));
          disk := disk[p := frames[f].page];
          frames[f] := frames[f].(dirty := false);
          assert frames[..] == c.fs[f := frames[f]];
          FlushFrameKeeps(c, f, State());
        }
      }
      if p < |disk| && (p in table ==> table[p] !in Touched()) {
        CleanOnDisk(State(), p);
      }
    }

    /** A checkpoint's flush: the whole log, then every dirty frame; `trail` are the states it goes through from the
        moment the log is durable. */
    method FlushAll() returns (ghost trail: seq<Core>)
      requires Valid()
      modifies this`disk, frames, wal
      ensures Valid() && Contents() == old(Contents()) && wal.flushedLsn == wal.nextLsn - 1 == old(wal.nextLsn) - 1
      ensures forall p :: 0 <= p < |disk| && (p in table ==> table[p] !in Touched()) ==> disk[p] == Contents()[p]
      ensures Trail(trail) && trail[|trail| - 1] == State()
      ensures trail[0] == old(State()).(flushed := old(State()).logged)
    {
      hide Sound;
      hide View;
      hide W.WalManager.Valid;
      LogStarted(wal);
      ghost var c := State();
      wal.Flush();
      LogKeeps(c, State());
      trail := [State()];
      var f := 0;
      while f < frames.Length
        invariant 0 <= f <= frames.Length && Valid() && Contents() == old(Contents())
        invariant wal.flushedLsn == wal.nextLsn - 1 == old(wal.nextLsn) - 1
        invariant forall i :: 0 <= i < f && frames[i].owner.Some? ==> !frames[i].dirty
        invariant |disk| == |old(disk)| && Trail(trail) && trail[|trail| - 1] == State()
        invariant trail[0] == c.(flushed := c.logged)
      {
        if frames[f].dirty && frames[f].owner.Some? {
          ghost var d := State();
          Owned(d, f);
          disk := disk[frames[f].owner.value := frames[f].page];
          frames[f] := frames[f].(dirty := false);
          FlushFrameKeeps(d, f, State());
          Resident(d, d.fs[f].owner.value);
          assert WroteBack(d, State(), d.fs[f].owner.value);
          trail := trail + [State()];
        }
        f := f + 1;
      }
      forall p | 0 <= p < |disk| && (p in table ==> table[p] !in Touched()) ensures disk[p] == Contents()[p] {
        if p in table {
          Resident(State(), p);
        }
        CleanOnDisk(State(), p);
      }
    }
  }
}
