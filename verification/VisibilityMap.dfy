/** The all-visible bit of one heap page: vacuum judges the page, then sets the bit in a second step, while inserts,
    xmax writes and transactions go on. */
module VisibilityMap {
  import opened Common
  import opened Transactions

  /** The part of a row version's header that decides who sees it. */
  datatype Header = Header(xmin: TxnId, xmax: TxnId)

  datatype World = World(tm: Tm, slots: seq<Option<Header>>, bit: bool)

  /** A vacuum reads the horizon in state `read` and judges the page, under a read latch, in state `judged`; the mark
      is its write, later, which looks at the page no more. Any number of vacuums may be under way. */
  datatype Action =
    | Manage
    | Insert(txn: TxnId)
    | SetXmax(slot: nat, txn: TxnId)
    | Tombstone(slot: nat)
    | Mark(read: nat, judged: nat, horizon: TxnId)

  predicate Live(w: World, slot: nat) {
    slot < |w.slots| && w.slots[slot].Some?
  }

  function HeaderAt(w: World, slot: nat): Header
    requires Live(w, slot)
  {
    w.slots[slot].value
  }

  /** The test of vacuum on one live row. */
  ghost predicate Passes(w: World, slot: nat, horizon: TxnId)
    requires Live(w, slot)
  {
    var x := HeaderAt(w, slot);
    TupleAllVisible(x.xmin, x.xmax, horizon, Status(w.tm, x.xmin))
  }

  ghost predicate AllPass(w: World, horizon: TxnId) {
    forall slot: nat :: Live(w, slot) ==> Passes(w, slot, horizon)
  }

  /** Headers name allocated transactions, and nothing is marked yet. */
  ghost predicate Start(w: World) {
    && WellFormed(w.tm) && !w.bit
    && forall slot: nat :: Live(w, slot) ==> HeaderAt(w, slot).xmin < w.tm.next && HeaderAt(w, slot).xmax < w.tm.next
  }

  /** Insert and xmax write clear the bit; a tombstone does not. */
  ghost predicate Does(run: seq<World>, i: nat, a: Action)
    requires i + 1 < |run|
  {
    var w, w' := run[i], run[i + 1];
    match a
    case Manage => Step(w.tm, w'.tm) && w' == w.(tm := w'.tm)
    case Insert(t) => t in w.tm.att && w' == w.(slots := w.slots + [Some(Header(t, NO_TXN))], bit := false)
    case SetXmax(slot, t) =>
      && t in w.tm.att && Live(w, slot)
      && w' == w.(slots := w.slots[slot := Some(HeaderAt(w, slot).(xmax := t))], bit := false)
    case Tombstone(slot) => slot < |w.slots| && w' == w.(slots := w.slots[slot := None])
    case Mark(h, d, horizon) =>
      && h <= d <= i && IsHorizon(run[h].tm, horizon) && AllPass(run[d], horizon)
      && w' == w.(bit := true)
  }

  ghost predicate IsRun(run: seq<World>, acts: seq<Action>) {
    && |run| == |acts| + 1 && Start(run[0])
    && forall i :: 0 <= i < |acts| ==> Does(run, i, acts[i])
  }

  ghost function Tms(run: seq<World>): (tms: seq<Tm>)
    ensures |tms| == |run| && forall i :: 0 <= i < |run| ==> tms[i] == run[i].tm
  {
    seq(|run|, i requires 0 <= i < |run| => run[i].tm)
  }

  lemma TmsRun(run: seq<World>, acts: seq<Action>)
    requires IsRun(run, acts)
    ensures Transactions.IsRun(Tms(run))
  {
    forall i | 0 <= i < |acts| ensures Step(run[i].tm, run[i + 1].tm) {
      assert Does(run, i, acts[i]);
    }
  }

  /** Whoever is active in a later state is not below the horizon, and a snapshot of such a state treats no id
      below the horizon as active. */
  lemma AboveHorizon(run: seq<Tm>, h: nat, k: nat, horizon: TxnId)
    requires Transactions.IsRun(run) && h <= k < |run| && IsHorizon(run[h], horizon)
    ensures horizon <= run[h].next <= run[k].next && forall t :: t in run[k].att ==> horizon <= t
  {
    RunKeeps(run, h, k);
  }

  /** A row that passed the test in state `d` is seen in every later state by every snapshot taken since the horizon
      was read. */
  lemma PassedIsSeen(run: seq<Tm>, h: nat, d: nat, k: nat, e: nat, horizon: TxnId, owner: TxnId, xmin: TxnId)
    requires Transactions.IsRun(run) && h <= d <= e < |run| && h <= k <= e && IsHorizon(run[h], horizon)
    requires TupleAllVisible(xmin, NO_TXN, horizon, Status(run[d], xmin))
    ensures Sees(run[e], TakeSnapshot(run[k], owner), xmin, NO_TXN)
    ensures Status(run[e], xmin) == Committed
  {
    RunKeeps(run, d, e);
    AboveHorizon(run, h, k, horizon);
  }

  // ---- between judging and marking ----

  /** The action writes this slot: it makes the row, or names its deleter. */
  predicate Hits(w: World, a: Action, slot: nat) {
    match a
    case Insert(_) => slot == |w.slots|
    case SetXmax(s, _) => slot == s
    case _ => false
  }

  ghost predicate HitSince(run: seq<World>, acts: seq<Action>, d: nat, m: nat, slot: nat)
    requires d <= m <= |acts| < |run|
  {
    exists i :: d <= i < m && Hits(run[i], acts[i], slot)
  }

  /** One step, seen from a slot that is live after it. */
  lemma SlotStep(run: seq<World>, acts: seq<Action>, i: nat, slot: nat)
    requires IsRun(run, acts) && i < |acts| && Live(run[i + 1], slot)
    ensures |run[i].slots| <= |run[i + 1].slots|
    ensures if Hits(run[i], acts[i], slot) && acts[i].Insert?
      then slot == |run[i].slots| && HeaderAt(run[i + 1], slot).xmin in run[i].tm.att
      else Live(run[i], slot) && HeaderAt(run[i + 1], slot).xmin == HeaderAt(run[i], slot).xmin
    ensures Hits(run[i], acts[i], slot) && acts[i].SetXmax? ==> HeaderAt(run[i + 1], slot).xmax in run[i].tm.att
    ensures !Hits(run[i], acts[i], slot) ==> HeaderAt(run[i + 1], slot) == HeaderAt(run[i], slot)
  {
    assert Does(run, i, acts[i]);
  }

  lemma {:induction false} SlotsGrow(run: seq<World>, acts: seq<Action>, d: nat, m: nat)
    requires IsRun(run, acts) && d <= m <= |acts|
    ensures |run[d].slots| <= |run[m].slots|
  {
    if d < m {
      SlotsGrow(run, acts, d, m - 1);
      assert Does(run, m - 1, acts[m - 1]);
    }
  }

  /** A live slot that was there in state `d` was live then, with the same creator, and with the same header when it
      has not been hit since; one that was not there has been hit. */
  lemma {:induction false} SinceJudged(run: seq<World>, acts: seq<Action>, d: nat, m: nat, slot: nat)
    requires IsRun(run, acts) && d <= m <= |acts| && Live(run[m], slot)
    ensures slot < |run[d].slots| ==> Live(run[d], slot) && HeaderAt(run[d], slot).xmin == HeaderAt(run[m], slot).xmin
    ensures !HitSince(run, acts, d, m, slot) ==>
      slot < |run[d].slots| && HeaderAt(run[d], slot) == HeaderAt(run[m], slot)
    decreases m
  {
    hide Does;
    hide Live;
    if d < m {
      SlotStep(run, acts, m - 1, slot);
      SlotsGrow(run, acts, d, m - 1);
      if Live(run[m - 1], slot) {
        SinceJudged(run, acts, d, m - 1, slot);
      }
    } else {
      assert slot < |run[d].slots| by {
        InSlots(run[d], slot);
      }
    }
  }

  lemma InSlots(w: World, slot: nat)
    requires Live(w, slot)
    ensures slot < |w.slots|
  {
  }

  /** A hit leaves the name of a transaction that was active at the time: as creator of a new slot, as deleter in an
      old one. */
  lemma {:induction false} HitNames(run: seq<World>, acts: seq<Action>, d: nat, m: nat, slot: nat) returns (i: nat)
    requires IsRun(run, acts) && d <= m <= |acts| && Live(run[m], slot) && HitSince(run, acts, d, m, slot)
    ensures d <= i < m
    ensures (if slot < |run[d].slots| then HeaderAt(run[m], slot).xmax
      else HeaderAt(run[m], slot).xmin) in run[i].tm.att
    decreases m
  {
    hide Does;
    hide Live;
    SlotStep(run, acts, m - 1, slot);
    SlotsGrow(run, acts, d, m - 1);
    var hit := Hits(run[m - 1], acts[m - 1], slot);
    if hit && (acts[m - 1].Insert? || slot < |run[d].slots|) {
      i := m - 1;
    } else {
      if slot >= |run[d].slots| && !HitSince(run, acts, d, m - 1, slot) {
        SinceJudged(run, acts, d, m - 1, slot);
      }
      i := HitNames(run, acts, d, m - 1, slot);
    }
  }

  /** No row that is live in state `n` has been hit since state `d`. */
  ghost predicate NoneHit(run: seq<World>, acts: seq<Action>, d: nat, n: nat)
    requires d <= n <= |acts| < |run|
  {
    forall slot: nat :: Live(run[n], slot) ==> !HitSince(run, acts, d, n, slot)
  }

  /** In any state after the mark, the live rows pass the test of the vacuum that marked exactly when no insert and
      no xmax write has hit one of them since that vacuum judged the page. */
  lemma StillPassesExactly(run: seq<World>, acts: seq<Action>, m: nat, n: nat)
    requires IsRun(run, acts) && m < n <= |acts| && acts[m].Mark?
    ensures acts[m].judged <= m
    ensures AllPass(run[n], acts[m].horizon) <==> NoneHit(run, acts, acts[m].judged, n)
  {
    var d, horizon := acts[m].judged, acts[m].horizon;
    assert Does(run, m, acts[m]);
    if NoneHit(run, acts, d, n) {
      forall slot: nat | Live(run[n], slot) ensures Passes(run[n], slot, horizon) {
        SlotStillPasses(run, acts, m, n, slot);
      }
    } else {
      var slot: nat :| Live(run[n], slot) && HitSince(run, acts, d, n, slot);
      SlotStillPasses(run, acts, m, n, slot);
    }
  }

  lemma SlotStillPasses(run: seq<World>, acts: seq<Action>, m: nat, n: nat, slot: nat)
    requires IsRun(run, acts) && m < n <= |acts| && acts[m].Mark? && Live(run[n], slot)
    requires acts[m].judged <= m
    ensures Passes(run[n], slot, acts[m].horizon) <==> !HitSince(run, acts, acts[m].judged, n, slot)
  {
    var Mark(h, d, horizon) := acts[m];
    assert Does(run, m, acts[m]);
    TmsRun(run, acts);
    SinceJudged(run, acts, d, n, slot);
    var tms := Tms(run);
    if !HitSince(run, acts, d, n, slot) {
      assert Passes(run[d], slot, horizon);
      RunKeeps(tms, d, n);
    } else {
      var i := HitNames(run, acts, d, n, slot);
      RunKeeps(tms, i, i);
      AboveHorizon(tms, h, i, horizon);
    }
  }

  /** Whoever could read the marked page: a transaction that took a snapshot in state `k` and is still active. */
  ghost predicate Reader(all: seq<Tm>, k: nat, owner: TxnId, x: Header)
    requires |all| > 0
  {
    k < |all| && owner in all[k].att && owner in all[|all| - 1].att && owner != x.xmin && owner != x.xmax
  }

  /** A mark is sound when, for as long as nobody inserts or writes an xmax, whatever transactions begin, commit
      or abort, every row on the page is seen by every running transaction with a snapshot taken since the horizon
      was read, except perhaps by the row's own writers. */
  ghost predicate SoundMark(w: World, past: seq<Tm>, h: nat) {
    forall all: seq<Tm>, k: nat, owner: TxnId, slot: nat ::
      Transactions.IsRun(all) && past <= all && h <= k && Live(w, slot) && Reader(all, k, owner, HeaderAt(w, slot)) ==>
        Sees(all[|all| - 1], TakeSnapshot(all[k], owner), HeaderAt(w, slot).xmin, HeaderAt(w, slot).xmax)
  }

  /** The row's creator has committed, no deleter can, and to nobody who reads already was the creator running or yet
      to come. */
  ghost predicate Settled(past: seq<Tm>, h: nat, x: Header)
    requires |past| > 0
  {
    var now := past[|past| - 1];
    && Status(now, x.xmin) == Committed
    && (x.xmax == NO_TXN || Status(now, x.xmax) == Aborted)
    && forall k: nat, owner: TxnId :: h <= k && Reader(past, k, owner, x) ==>
         x.xmin < past[k].next && x.xmin !in past[k].att
  }

  ghost predicate AllSettled(w: World, past: seq<Tm>, h: nat)
    requires |past| > 0
  {
    forall slot: nat :: Live(w, slot) ==> Settled(past, h, HeaderAt(w, slot))
  }

  /** Exactly when a mark is sound for the readers there can be: at the mark every live row has a committed creator,
      no deleter that may still count, and no open reader whose snapshot the creator escaped. */
  lemma MarkSoundExactly(run: seq<World>, acts: seq<Action>, m: nat)
    requires IsRun(run, acts) && m < |acts| && acts[m].Mark?
    ensures acts[m].read <= acts[m].judged <= m
    ensures var past := Tms(run[..m + 2]);
      SoundMark(run[m + 1], past, acts[m].read) <==> AllSettled(run[m + 1], past, acts[m].read)
  {
    var w, past, h := run[m + 1], Tms(run[..m + 2]), acts[m].read;
    assert Does(run, m, acts[m]);
    PrefixRun(run, acts, m + 1);
    hide Settled;
    if AllSettled(w, past, h) {
      forall all: seq<Tm>, k: nat, owner: TxnId, slot: nat |
        Transactions.IsRun(all) && past <= all && h <= k && Live(w, slot) && Reader(all, k, owner, HeaderAt(w, slot))
        ensures Sees(all[|all| - 1], TakeSnapshot(all[k], owner), HeaderAt(w, slot).xmin, HeaderAt(w, slot).xmax)
      {
        HeadersAllocated(run, acts, m + 1, slot);
        SettledIsSeen(past, all, h, k, owner, HeaderAt(w, slot));
      }
    } else {
      var slot: nat :| Live(w, slot) && !Settled(past, h, HeaderAt(w, slot));
      HeadersAllocated(run, acts, m + 1, slot);
      UnsettledUnseen(w, past, h, slot);
    }
  }

  /** A page that still passes the test when it is marked is marked soundly. */
  lemma FreshMarkSound(run: seq<World>, acts: seq<Action>, m: nat)
    requires IsRun(run, acts) && m < |acts| && acts[m].Mark? && acts[m].judged <= m
    requires NoneHit(run, acts, acts[m].judged, m + 1)
    ensures SoundMark(run[m + 1], Tms(run[..m + 2]), acts[m].read)
  {
    var w, past, h := run[m + 1], Tms(run[..m + 2]), acts[m].read;
    assert Does(run, m, acts[m]);
    StillPassesExactly(run, acts, m, m + 1);
    PrefixRun(run, acts, m + 1);
    forall slot: nat | Live(w, slot) ensures Settled(past, h, HeaderAt(w, slot)) {
      assert Passes(w, slot, acts[m].horizon);
      PassedIsSettled(past, h, acts[m].horizon, HeaderAt(w, slot));
    }
    MarkSoundExactly(run, acts, m);
  }

  lemma PassedIsSettled(past: seq<Tm>, h: nat, horizon: TxnId, x: Header)
    requires Transactions.IsRun(past) && h < |past| && IsHorizon(past[h], horizon)
    requires TupleAllVisible(x.xmin, x.xmax, horizon, Status(past[|past| - 1], x.xmin))
    ensures Settled(past, h, x)
  {
    forall k: nat, owner: TxnId | h <= k && Reader(past, k, owner, x)
      ensures x.xmin < past[k].next && x.xmin !in past[k].att
    {
      AboveHorizon(past, h, k, horizon);
    }
  }

  lemma PrefixRun(run: seq<World>, acts: seq<Action>, n: nat)
    requires IsRun(run, acts) && n < |run|
    ensures Transactions.IsRun(Tms(run[..n + 1]))
  {
    TmsRun(run, acts);
    var all, part := Tms(run), Tms(run[..n + 1]);
    assert part == all[..n + 1];
    forall i | 0 <= i < |part| - 1 ensures Step(part[i], part[i + 1]) {
      assert Step(all[i], all[i + 1]);
    }
  }

  /** Creators and deleters that a header names are allocated. */
  lemma {:induction false} HeadersAllocated(run: seq<World>, acts: seq<Action>, n: nat, slot: nat)
    requires IsRun(run, acts) && n < |run| && Live(run[n], slot)
    ensures HeaderAt(run[n], slot).xmin < run[n].tm.next && HeaderAt(run[n], slot).xmax < run[n].tm.next
  {
    if n > 0 {
      TmsRun(run, acts);
      RunKeeps(Tms(run), n - 1, n);
      assert Does(run, n - 1, acts[n - 1]);
      if Live(run[n - 1], slot) {
        HeadersAllocated(run, acts, n - 1, slot);
      }
    }
  }

  lemma SettledIsSeen(past: seq<Tm>, all: seq<Tm>, h: nat, k: nat, owner: TxnId, x: Header)
    requires Transactions.IsRun(all) && 0 < |past| && past <= all && h <= k && Settled(past, h, x)
    requires Reader(all, k, owner, x) && x.xmax < past[|past| - 1].next
    ensures Sees(all[|all| - 1], TakeSnapshot(all[k], owner), x.xmin, x.xmax)
  {
    var at, last := |past| - 1, |all| - 1;
    RunKeeps(all, at, last);
    if k <= at {
      RunKeeps(all, k, at);
      assert Reader(past, k, owner, x);
    } else {
      RunKeeps(all, at, k);
    }
  }

  /** Somebody does not see the row: an open reader, or one that begins now, or one that begins when the deleter
      has committed. */
  lemma UnsettledUnseen(w: World, past: seq<Tm>, h: nat, slot: nat)
    requires Transactions.IsRun(past) && h < |past| && Live(w, slot) && !Settled(past, h, HeaderAt(w, slot))
    requires HeaderAt(w, slot).xmin < past[|past| - 1].next && HeaderAt(w, slot).xmax < past[|past| - 1].next
    ensures !SoundMark(w, past, h)
  {
    var x, now := HeaderAt(w, slot), past[|past| - 1];
    RunKeeps(past, |past| - 1, |past| - 1);
    if Status(now, x.xmin) == Committed && (x.xmax == NO_TXN || Status(now, x.xmax) == Aborted) {
      var k: nat, owner: TxnId :| h <= k && Reader(past, k, owner, x) &&
        !(x.xmin < past[k].next && x.xmin !in past[k].att);
      assert !Sees(now, TakeSnapshot(past[k], owner), x.xmin, x.xmax);
    } else if Status(now, x.xmin) == Committed && x.xmax in now.att {
      var all := CommitNext(past, x.xmax);
      NewReaderUnseen(w, past, all, h, slot);
    } else {
      NewReaderUnseen(w, past, past, h, slot);
    }
  }

  /** A transaction that begins now does not see a row whose creator has not committed or whose deleter has. */
  lemma NewReaderUnseen(w: World, past: seq<Tm>, now: seq<Tm>, h: nat, slot: nat)
    requires Transactions.IsRun(now) && h < |past| && past <= now && Live(w, slot)
    requires var x, tm := HeaderAt(w, slot), now[|now| - 1];
      && x.xmin < tm.next && x.xmax < tm.next
      && (Status(tm, x.xmin) != Committed || (x.xmax != NO_TXN && Status(tm, x.xmax) == Committed))
    ensures !SoundMark(w, past, h)
  {
    var x := HeaderAt(w, slot);
    var all := BeginNext(now);
    var last := all[|all| - 1];
    RunKeeps(all, |now| - 1, |all| - 1);
    var owner := last.next - 1;
    assert Reader(all, |all| - 1, owner, x) && past <= all;
    assert !Sees(last, TakeSnapshot(last, owner), x.xmin, x.xmax);
  }

  lemma BeginNext(past: seq<Tm>) returns (all: seq<Tm>)
    requires Transactions.IsRun(past)
    ensures Transactions.IsRun(all) && past <= all && |all| == |past| + 1
    ensures all[|past|] == Begun(past[|past| - 1])
  {
    all := past + [Begun(past[|past| - 1])];
    forall i | 0 <= i < |past| ensures Step(all[i], all[i + 1]) {
      if i < |past| - 1 {
        assert Step(past[i], past[i + 1]);
      }
    }
  }

  lemma CommitNext(past: seq<Tm>, t: TxnId) returns (all: seq<Tm>)
    requires Transactions.IsRun(past) && t in past[|past| - 1].att
    ensures Transactions.IsRun(all) && past <= all && |all| == |past| + 1
    ensures all[|past|] == Decide(past[|past| - 1], t, true)
  {
    var last := past[|past| - 1];
    all := past + [Decide(last, t, true)];
    assert Step(last, all[|past|]);
    forall i | 0 <= i < |past| ensures Step(all[i], all[i + 1]) {
      if i < |past| - 1 {
        assert Step(past[i], past[i + 1]);
      }
    }
  }

  // ---- whole runs ----

  /** No insert and no xmax write between judging and marking. */
  ghost predicate Quiet(acts: seq<Action>, m: nat)
    requires m < |acts| && acts[m].Mark?
  {
    forall i :: acts[m].judged <= i < m ==> !acts[i].Insert? && !acts[i].SetXmax?
  }

  lemma {:induction false} StaysLive(run: seq<World>, acts: seq<Action>, i: nat, m: nat, slot: nat)
    requires IsRun(run, acts) && i <= m <= |acts| && Live(run[i], slot)
    requires forall j :: i <= j < m ==> !acts[j].Tombstone?
    ensures Live(run[m], slot)
  {
    if i < m {
      StaysLive(run, acts, i, m - 1, slot);
      assert Does(run, m - 1, acts[m - 1]);
    }
  }

  lemma HitStays(run: seq<World>, acts: seq<Action>, d: nat, i: nat, m: nat) returns (slot: nat)
    requires IsRun(run, acts) && d <= i < m <= |acts| && (acts[i].Insert? || acts[i].SetXmax?)
    requires forall j :: d <= j < m ==> !acts[j].Tombstone?
    ensures Live(run[m], slot) && HitSince(run, acts, d, m, slot)
  {
    slot := if acts[i].Insert? then |run[i].slots| else acts[i].slot;
    assert Does(run, i, acts[i]);
    StaysLive(run, acts, i + 1, m, slot);
    assert Hits(run[i], acts[i], slot);
  }

  /** With no other vacuum removing rows meanwhile, the marked page passes the test exactly when no insert and no
      xmax write came between judging and marking. */
  lemma QuietExactly(run: seq<World>, acts: seq<Action>, m: nat)
    requires IsRun(run, acts) && m < |acts| && acts[m].Mark?
    requires forall j :: acts[m].judged <= j < m ==> !acts[j].Tombstone?
    ensures AllPass(run[m + 1], acts[m].horizon) <==> Quiet(acts, m)
  {
    hide Does;
    hide AllPass;
    StillPassesExactly(run, acts, m, m + 1);
    if !Quiet(acts, m) {
      var i :| acts[m].judged <= i < m && (acts[i].Insert? || acts[i].SetXmax?);
      var slot := HitStays(run, acts, acts[m].judged, i, m + 1);
    } else {
      assert forall slot: nat, i :: acts[m].judged <= i < m + 1 ==> !Hits(run[i], acts[i], slot);
    }
  }

  /** The bit has been set since this mark: no insert and no xmax write came after it. */
  ghost predicate HeldSince(acts: seq<Action>, m: nat, n: nat) {
    m < n <= |acts| && acts[m].Mark? && forall i :: m < i < n ==> !acts[i].Insert? && !acts[i].SetXmax?
  }

  /** The bit is set exactly when some vacuum has marked the page and nothing has been written to it since. */
  lemma {:induction false} BitKept(run: seq<World>, acts: seq<Action>, n: nat)
    requires IsRun(run, acts) && n < |run|
    ensures run[n].bit <==> exists m: nat :: HeldSince(acts, m, n)
  {
    if n > 0 {
      var before := n - 1;
      BitKept(run, acts, before);
      assert Does(run, n - 1, acts[n - 1]);
      if acts[n - 1].Mark? {
        assert HeldSince(acts, n - 1, n);
      } else if m: nat :| HeldSince(acts, m, n) {
        assert HeldSince(acts, m, before);
      }
      if !acts[n - 1].Insert? && !acts[n - 1].SetXmax? {
        if m: nat :| HeldSince(acts, m, before) {
          assert HeldSince(acts, m, n);
        }
      }
    }
  }

  /** The use of the bit by scans. When the bit has been set since a mark, and no row that was live at that mark had
      been hit since its vacuum judged the page, every live row on the page is seen by every snapshot taken since that
      vacuum read its horizon. */
  lemma MarkedIsVisible(run: seq<World>, acts: seq<Action>, n: nat, m: nat)
    requires IsRun(run, acts) && n < |run| && HeldSince(acts, m, n)
    requires acts[m].judged <= m && NoneHit(run, acts, acts[m].judged, m)
    ensures acts[m].read <= m
    ensures forall k: nat, owner: TxnId, slot: nat :: acts[m].read <= k <= n && Live(run[n], slot) ==>
      Sees(run[n].tm, TakeSnapshot(run[k].tm, owner), HeaderAt(run[n], slot).xmin, HeaderAt(run[n], slot).xmax)
  {
    assert Does(run, m, acts[m]);
    StillNoneHit(run, acts, m, n);
    StillPassesExactly(run, acts, m, n);
    TmsRun(run, acts);
    forall k: nat, owner: TxnId, slot: nat | acts[m].read <= k <= n && Live(run[n], slot)
      ensures Sees(run[n].tm, TakeSnapshot(run[k].tm, owner), HeaderAt(run[n], slot).xmin, HeaderAt(run[n], slot).xmax)
    {
      assert Passes(run[n], slot, acts[m].horizon);
      PassedIsSeen(Tms(run), acts[m].read, n, k, n, acts[m].horizon, owner, HeaderAt(run[n], slot).xmin);
    }
  }

  lemma StillNoneHit(run: seq<World>, acts: seq<Action>, m: nat, n: nat)
    requires IsRun(run, acts) && HeldSince(acts, m, n) && acts[m].judged <= m && NoneHit(run, acts, acts[m].judged, m)
    ensures NoneHit(run, acts, acts[m].judged, n)
  {
    hide Does;
    hide Live;
    forall slot: nat | Live(run[n], slot) ensures !HitSince(run, acts, acts[m].judged, n, slot) {
      assert forall i :: m <= i < n ==> !Hits(run[i], acts[i], slot);
      SinceJudged(run, acts, m, n, slot);
    }
  }

  /** A live row of a running transaction that a running reader must not see, on a marked page. */
  ghost predicate Misread(w: World, slot: nat, owner: TxnId) {
    && w.bit && Live(w, slot) && owner in w.tm.att
    && Status(w.tm, HeaderAt(w, slot).xmin) == InProgress
    && !Sees(w.tm, TakeSnapshot(w.tm, owner), HeaderAt(w, slot).xmin, HeaderAt(w, slot).xmax)
  }

  /** What the gap between the two latches lets happen: an insert in between leaves a row of a running transaction
      on a marked page, where another reader takes it for visible. */
  lemma StaleMark() returns (run: seq<World>, acts: seq<Action>)
    ensures IsRun(run, acts)
    ensures exists slot: nat, owner: TxnId :: Misread(run[|acts|], slot, owner)
  {
    // 1 has committed a row; 2 and 3 are running; vacuum reads the horizon 2 and judges; 2 inserts; vacuum marks.
    var tm := Tm(4, {2, 3}, iset{1}, iset{});
    var w0 := World(tm, [Some(Header(1, NO_TXN))], false);
    var w1 := World(tm, [Some(Header(1, NO_TXN)), Some(Header(2, NO_TXN))], false);
    run := [w0, w1, w1.(bit := true)];
    acts := [Insert(2), Mark(0, 0, 2)];
    assert Does(run, 0, acts[0]) && Does(run, 1, acts[1]);
    assert Misread(run[2], 1, 3);
  }
}
