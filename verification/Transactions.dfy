/** Transaction ids, snapshots and visibility, first as a state machine, then as the class that implements it. */
module Transactions {
  import opened Common
  import opened CommitLog

  /** What the transaction manager decides with: the id counter, the active table and the commit log. */
  datatype Tm = Tm(next: TxnId, att: set<TxnId>, committed: iset<TxnId>, aborted: iset<TxnId>)

  ghost predicate Decided(s: Tm, t: TxnId) {
    t in s.committed || t in s.aborted
  }

  ghost predicate WellFormed(s: Tm) {
    && s.next >= 1
    && (forall t: TxnId :: t in s.att ==> 1 <= t < s.next && t !in s.committed && t !in s.aborted)
    && (forall t: TxnId :: t in s.committed ==> t < s.next && t !in s.aborted)
    && (forall t: TxnId :: t in s.aborted ==> t < s.next)
  }

  /** The answer without the memo: an undecided id that is not active counts as aborted. */
  ghost function Status(s: Tm, t: TxnId): TxnStatus {
    if t in s.committed then Committed
    else if t in s.aborted then Aborted
    else if t in s.att then InProgress
    else Aborted
  }

  ghost function Begun(s: Tm): Tm {
    s.(next := s.next + 1, att := s.att + {s.next})
  }

  /** Commit and abort: the first terminal decision wins. */
  ghost function Decide(s: Tm, t: TxnId, commit: bool): Tm {
    var s' := s.(att := s.att - {t});
    if Decided(s, t) then s'
    else if commit then s'.(committed := s.committed + iset{t})
    else s'.(aborted := s.aborted + iset{t})
  }

  /** One operation of the manager. A connection decides only the id it began. */
  ghost predicate Step(s: Tm, s': Tm) {
    || s' == s
    || s' == Begun(s)
    || exists t: TxnId, commit: bool :: (t in s.att || Decided(s, t)) && s' == Decide(s, t, commit)
  }

  ghost predicate IsRun(run: seq<Tm>) {
    && |run| > 0
    && WellFormed(run[0])
    && forall i :: 0 <= i < |run| - 1 ==> Step(run[i], run[i + 1])
  }

  /** Along a run an id that was allocated and left the active table never changes its answer again. */
  lemma {:induction false} RunKeeps(run: seq<Tm>, i: nat, j: nat)
    requires IsRun(run) && i <= j < |run|
    ensures WellFormed(run[i]) && WellFormed(run[j])
    ensures run[i].next <= run[j].next
    ensures forall t: TxnId :: t < run[i].next && t !in run[i].att ==>
      t !in run[j].att && Status(run[j], t) == Status(run[i], t)
    ensures forall t: TxnId :: Decided(run[i], t) ==> Status(run[j], t) == Status(run[i], t)
    decreases j
  {
    if j > 0 {
      if i < j {
        RunKeeps(run, i, j - 1);
      } else {
        RunKeeps(run, j - 1, j - 1);
      }
      assert Step(run[j - 1], run[j]);
    }
  }

  lemma DecideKeeps(s: Tm, t: TxnId, commit: bool)
    requires WellFormed(s) && (t in s.att || Decided(s, t))
    ensures WellFormed(Decide(s, t, commit))
    ensures forall cache: map<TxnId, TxnStatus> :: MemoCoherent(cache, s) ==> MemoCoherent(cache, Decide(s, t, commit))
  {
  }

  datatype Snapshot = Snapshot(txn: TxnId, xmax: TxnId, active: set<TxnId>)

  ghost function TakeSnapshot(s: Tm, t: TxnId): Snapshot {
    Snapshot(t, s.next, s.att)
  }

  predicate CreatorVisible(xmin: TxnId, snap: Snapshot, status: TxnStatus) {
    if xmin == snap.txn then true
    else if xmin >= snap.xmax then false
    else if xmin in snap.active then false
    else status.Committed?
  }

  /** `is_visible`; the two status arguments are the answers of the lookups it makes. */
  predicate Visible(xmin: TxnId, xmax: TxnId, snap: Snapshot, minStatus: TxnStatus, maxStatus: TxnStatus) {
    if !CreatorVisible(xmin, snap, minStatus) then false
    else if xmax == NO_TXN then true
    else if xmax == snap.txn then false
    else if xmax >= snap.xmax then true
    else if xmax in snap.active then true
    else match maxStatus
      case Committed => false
      case Aborted => true
      case InProgress => true
  }

  ghost predicate Sees(s: Tm, snap: Snapshot, xmin: TxnId, xmax: TxnId) {
    Visible(xmin, xmax, snap, Status(s, xmin), Status(s, xmax))
  }

  /** Snapshot isolation: whatever happens after a snapshot is taken, it answers every row header alike. */
  lemma SnapshotStable(run: seq<Tm>, i: nat, j: nat, owner: TxnId, xmin: TxnId, xmax: TxnId)
    requires IsRun(run) && i <= j < |run|
    ensures var snap := TakeSnapshot(run[i], owner);
      Sees(run[j], snap, xmin, xmax) == Sees(run[i], snap, xmin, xmax)
  {
    RunKeeps(run, i, j);
  }

  /** What a snapshot shows, in terms of who had committed when it was taken: the rows that its owner or a transaction
      committed by then made, less those that its owner or a transaction committed by then deleted. Nothing that
      happens afterwards matters. */
  lemma SeesExactly(run: seq<Tm>, i: nat, j: nat, owner: TxnId, xmin: TxnId, xmax: TxnId)
    requires IsRun(run) && i <= j < |run| && owner in run[i].att
    ensures Sees(run[j], TakeSnapshot(run[i], owner), xmin, xmax) <==>
      && (xmin == owner || xmin in run[i].committed)
      && (xmax == NO_TXN || (xmax != owner && xmax !in run[i].committed))
  {
    RunKeeps(run, i, j);
  }

  /** `oldest_active_xmin`: the smallest active id, or the next id when nothing is active. */
  ghost predicate IsHorizon(s: Tm, horizon: TxnId) {
    && (s.att == {} ==> horizon == s.next)
    && (s.att != {} ==> horizon in s.att)
    && forall t: TxnId :: t in s.att ==> horizon <= t
  }

  predicate TupleDead(xmax: TxnId, horizon: TxnId, minStatus: TxnStatus, maxStatus: TxnStatus) {
    || minStatus.Aborted?
    || (xmax != NO_TXN && xmax < horizon && maxStatus.Committed?)
  }

  predicate TupleAllVisible(xmin: TxnId, xmax: TxnId, horizon: TxnId, minStatus: TxnStatus) {
    xmax == NO_TXN && xmin < horizon && minStatus.Committed?
  }

  /** When vacuum reclaims a row, in terms of who is running: exactly when its creator aborted, or its deleter committed
      and everybody who is active began after the deleter. */
  lemma DeadExactly(s: Tm, horizon: TxnId, xmin: TxnId, xmax: TxnId)
    requires WellFormed(s) && IsHorizon(s, horizon)
    ensures TupleDead(xmax, horizon, Status(s, xmin), Status(s, xmax)) <==>
      || Status(s, xmin) == Aborted
      || (xmax != NO_TXN && xmax in s.committed && forall t :: t in s.att ==> xmax < t)
  {
  }

  /** And when it calls a row visible to all: exactly when nobody deleted it, its creator committed and everybody who
      is active began after the creator. */
  lemma AllVisibleExactly(s: Tm, horizon: TxnId, xmin: TxnId, xmax: TxnId)
    requires WellFormed(s) && IsHorizon(s, horizon)
    ensures TupleAllVisible(xmin, xmax, horizon, Status(s, xmin)) <==>
      xmax == NO_TXN && xmin in s.committed && forall t :: t in s.att ==> xmin < t
  {
  }

  /** With nobody active vacuum is complete: it reclaims exactly the rows that no transaction to come can see. */
  lemma IdleVacuumComplete(s: Tm, horizon: TxnId, xmin: TxnId, xmax: TxnId)
    requires WellFormed(s) && s.att == {} && IsHorizon(s, horizon) && xmin < s.next && xmax < s.next
    ensures TupleDead(xmax, horizon, Status(s, xmin), Status(s, xmax)) <==>
      forall run: seq<Tm>, k: nat, owner: TxnId :: IsRun(run) && run[0] == s && k < |run| && owner in run[k].att ==>
        !Sees(run[|run| - 1], TakeSnapshot(run[k], owner), xmin, xmax)
  {
    if TupleDead(xmax, horizon, Status(s, xmin), Status(s, xmax)) {
      forall run: seq<Tm>, k: nat, owner: TxnId | IsRun(run) && run[0] == s && k < |run| && owner in run[k].att
        ensures !Sees(run[|run| - 1], TakeSnapshot(run[k], owner), xmin, xmax)
      {
        SeesExactly(run, k, |run| - 1, owner, xmin, xmax);
        RunKeeps(run, 0, k);
      }
    } else {
      var run := [s, Begun(s)];
      SeesExactly(run, 1, 1, s.next, xmin, xmax);
      assert Sees(run[|run| - 1], TakeSnapshot(run[1], s.next), xmin, xmax);
    }
  }

  /** Vacuum soundness. The horizon is read at `h` and the tuple judged at `d`; a transaction that is still
      in progress at `e` took its snapshot at any `k` since `h` (before or after the judgement). It does not
      see a tuple judged dead, and it does see one judged visible to all. */
  lemma HorizonSound(run: seq<Tm>, h: nat, d: nat, k: nat, e: nat,
                     horizon: TxnId, owner: TxnId, xmin: TxnId, xmax: TxnId)
    requires IsRun(run) && h <= d <= e < |run| && h <= k <= e
    requires IsHorizon(run[h], horizon)
    requires owner in run[e].att && owner in run[k].att
    requires xmin < run[d].next
    ensures var snap := TakeSnapshot(run[k], owner);
      && (TupleDead(xmax, horizon, Status(run[d], xmin), Status(run[d], xmax)) ==>
            !Sees(run[e], snap, xmin, xmax))
      && (TupleAllVisible(xmin, xmax, horizon, Status(run[d], xmin)) ==>
            Sees(run[e], snap, xmin, xmax))
  {
    RunKeeps(run, h, d);
    RunKeeps(run, h, k);
    RunKeeps(run, d, e);
    RunKeeps(run, k, e);
    RunKeeps(run, h, e);
  }

  // Snapshots that were already open when the horizon was read. The horizon is the smallest active id, not the
  // smallest id that an open snapshot treats as active, so it protects them only on a condition.

  /** No transaction below the horizon that the snapshot still treats as active has committed. */
  ghost predicate NoneSlippedBy(s: Tm, snap: Snapshot, horizon: TxnId) {
    forall t: TxnId :: t in snap.active && t < horizon ==> Status(s, t) != Committed
  }

  /** A snapshot taken at `k`, before the horizon was read at `h`, misses every row judged dead at `d` exactly
      when none of its active transactions below the horizon had committed by then; and so for the rows of any one
      creator that had committed before the snapshot. */
  lemma OpenSnapshotMissesDead(run: seq<Tm>, k: nat, h: nat, d: nat, e: nat, horizon: TxnId, owner: TxnId)
    requires IsRun(run) && k <= h <= d <= e < |run| && IsHorizon(run[h], horizon)
    requires owner in run[k].att && owner in run[e].att
    ensures var snap := TakeSnapshot(run[k], owner);
      NoneSlippedBy(run[d], snap, horizon) <==>
      forall xmin: TxnId, xmax: TxnId ::
        xmin < run[d].next && TupleDead(xmax, horizon, Status(run[d], xmin), Status(run[d], xmax)) ==>
        !Sees(run[e], snap, xmin, xmax)
    ensures var snap := TakeSnapshot(run[k], owner);
      forall xmin: TxnId :: Status(run[k], xmin) == Committed ==>
        (NoneSlippedBy(run[d], snap, horizon) <==>
         forall xmax: TxnId :: TupleDead(xmax, horizon, Status(run[d], xmin), Status(run[d], xmax)) ==>
           !Sees(run[e], snap, xmin, xmax))
  {
    RunKeeps(run, k, h);
    RunKeeps(run, h, d);
    RunKeeps(run, h, e);
    RunKeeps(run, d, e);
    RunKeeps(run, k, e);
    var snap := TakeSnapshot(run[k], owner);
    if t: TxnId :| t in snap.active && t < horizon && Status(run[d], t) == Committed {
      assert TupleDead(t, horizon, Status(run[d], owner), Status(run[d], t)) && Sees(run[e], snap, owner, t);
      forall xmin: TxnId | Status(run[k], xmin) == Committed
        ensures TupleDead(t, horizon, Status(run[d], xmin), Status(run[d], t)) && Sees(run[e], snap, xmin, t)
      {
      }
    }
  }

  /** The same snapshot sees every row judged visible to all on exactly the same condition. */
  lemma OpenSnapshotSeesMarked(run: seq<Tm>, k: nat, h: nat, d: nat, e: nat, horizon: TxnId, owner: TxnId)
    requires IsRun(run) && k <= h <= d <= e < |run| && IsHorizon(run[h], horizon)
    requires owner in run[k].att && owner in run[e].att
    ensures var snap := TakeSnapshot(run[k], owner);
      NoneSlippedBy(run[d], snap, horizon) <==>
      forall xmin: TxnId, xmax: TxnId ::
        TupleAllVisible(xmin, xmax, horizon, Status(run[d], xmin)) ==> Sees(run[e], snap, xmin, xmax)
  {
    RunKeeps(run, k, h);
    RunKeeps(run, h, d);
    RunKeeps(run, h, e);
    RunKeeps(run, d, e);
    RunKeeps(run, k, e);
    var snap := TakeSnapshot(run[k], owner);
    if t: TxnId :| t in snap.active && t < horizon && Status(run[d], t) == Committed {
      assert TupleAllVisible(t, NO_TXN, horizon, Status(run[d], t)) && !Sees(run[e], snap, t, NO_TXN);
    }
  }

  /** The condition does fail: an old reader still needs a row that the horizon lets vacuum reclaim. */
  lemma HorizonMissesOpenSnapshots()
    ensures exists run: seq<Tm>, k: nat, d: nat, horizon: TxnId, owner: TxnId, xmin: TxnId, xmax: TxnId ::
      && IsRun(run) && k <= d < |run| && IsHorizon(run[d], horizon)
      && owner in run[k].att && owner in run[d].att
      && TupleDead(xmax, horizon, Status(run[d], xmin), Status(run[d], xmax))
      && Sees(run[d], TakeSnapshot(run[k], owner), xmin, xmax)
  {
    // 1 creates the row, 2 is a concurrent deleter, 3 reads while 2 is active, then 2 commits.
    var s0 := Tm(4, {2, 3}, iset{1}, iset{});
    var s1 := Decide(s0, 2, true);
    var run := [s0, s1];
    assert Step(run[0], run[1]);
    assert 3 in run[0].att && 3 in run[1].att && IsHorizon(run[1], 3);
    assert TupleDead(2, 3, Status(run[1], 1), Status(run[1], 2));
    assert Sees(run[1], TakeSnapshot(run[0], 3), 1, 2);
  }

  /** A terminal answer is permanent exactly for ids that have been allocated: asking about a later id
      answers Aborted and can be contradicted once that id begins and commits. */
  lemma TerminalAnswersArePermanent(s: Tm, t: TxnId)
    requires WellFormed(s) && Status(s, t) != InProgress
    ensures t < s.next <==>
      forall run: seq<Tm>, j: nat :: IsRun(run) && run[0] == s && j < |run| ==> Status(run[j], t) == Status(s, t)
  {
    if t < s.next {
      forall run: seq<Tm>, j: nat | IsRun(run) && run[0] == s && j < |run|
        ensures Status(run[j], t) == Status(s, t)
      {
        RunKeeps(run, 0, j);
      }
    } else {
      var run := RunUntilCommitted(s, t);
      assert Status(run[|run| - 1], t) != Status(s, t);
    }
  }

  lemma RunUntilCommitted(s: Tm, t: TxnId) returns (run: seq<Tm>)
    requires WellFormed(s) && t >= s.next
    ensures IsRun(run) && run[0] == s && Status(run[|run| - 1], t) == Committed
    decreases t - s.next
  {
    var s1 := Begun(s);
    if t == s.next {
      var s2 := Decide(s1, t, true);
      run := [s, s1, s2];
      assert Step(s1, s2);
    } else {
      var rest := RunUntilCommitted(s1, t);
      run := [s] + rest;
      forall i | 0 <= i < |run| - 1 ensures Step(run[i], run[i + 1]) {
        if i > 0 {
          assert run[i] == rest[i - 1] && run[i + 1] == rest[i];
        }
      }
    }
  }

  /** Every memoised answer is terminal, about an allocated id, and equal to the answer without the memo. */
  ghost predicate MemoCoherent(cache: map<TxnId, TxnStatus>, s: Tm) {
    forall t: TxnId :: t in cache ==>
      t < s.next && t !in s.att && cache[t] != InProgress && cache[t] == Status(s, t)
  }

  lemma MemoAnswers(cache: map<TxnId, TxnStatus>, s: Tm, t: TxnId)
    requires WellFormed(s) && MemoCoherent(cache, s)
    ensures t in cache ==> cache[t] == Status(s, t) && t < s.next
    ensures Status(s, t) == InProgress ==> t < s.next
    ensures MemoCoherent(map[], s)
  {
  }

  lemma MemoGrows(cache: map<TxnId, TxnStatus>, s: Tm, t: TxnId)
    requires WellFormed(s) && MemoCoherent(cache, s) && Status(s, t) != InProgress
    ensures MemoCoherent(cache[t := Status(s, t)], s) <==> t < s.next
  {
  }

  class TransactionManager {
    var nextTxnId: TxnId
    /** Active transaction table with each transaction's last LSN. */
    var att: map<TxnId, Lsn>
    const clog: Clog
    /** The per-thread memo of terminal answers. */
    var cache: map<TxnId, TxnStatus>

    const CACHE_LIMIT := 4096

    ghost function Abs(): Tm
      reads this`nextTxnId, this`att, clog
    {
      Tm(nextTxnId, att.Keys, Logged(Committed), Logged(Aborted))
    }

    ghost function Logged(s: TxnStatus): iset<TxnId>
      reads clog
    {
      iset t: TxnId | clog.View(t) == s
    }

    ghost predicate Valid()
      reads this, clog
    {
      && clog.Valid()
      && WellFormed(Abs())
      && MemoCoherent(cache, Abs())
    }

    /** A manager over a freshly opened log; `next` is the id recovery continues from. */
    constructor (log: Clog, next: TxnId)
      requires log.Valid() && next >= 1
      requires forall t: TxnId :: t >= next ==> log.View(t) == InProgress
      ensures Valid() && clog == log
      ensures nextTxnId == next && att == map[]
    {
      nextTxnId := next;
      att := map[];
      clog := log;
      cache := map[];
    }

    method Begin() returns (id: TxnId)
      requires Valid()
      modifies this
      ensures Valid() && id == old(nextTxnId)
      ensures Abs() == Begun(old(Abs()))
    {
      id := nextTxnId;
      nextTxnId := nextTxnId + 1;
      att := att[id := 0];
      assert att.Keys == old(att.Keys) + {id};
      assert forall d: TxnStatus :: Logged(d) == old(Logged(d));
    }

    method UpdateLastLsn(t: TxnId, lsn: Lsn)
      requires Valid()
      modifies this`att
      ensures Valid() && Abs() == old(Abs())
      ensures att == if t in old(att) then old(att)[t := lsn] else old(att)
    {
      if t in att {
        att := att[t := lsn];
      }
      assert att.Keys == old(att.Keys);
      assert forall d: TxnStatus :: Logged(d) == old(Logged(d));
    }

    method Commit(t: TxnId)
      requires Valid() && (t in att || Decided(Abs(), t))
      modifies this`att, clog
      ensures Valid() && Abs() == Decide(old(Abs()), t, true)
    {
      Finish(t, true);
    }

    method Abort(t: TxnId)
      requires Valid() && (t in att || Decided(Abs(), t))
      modifies this`att, clog
      ensures Valid() && Abs() == Decide(old(Abs()), t, false)
    {
      Finish(t, false);
    }

    method Finish(t: TxnId, commit: bool)
      requires Valid() && (t in att || Decided(Abs(), t))
      modifies this`att, clog
      ensures Valid() && Abs() == Decide(old(Abs()), t, commit)
    {
      DecideKeeps(Abs(), t, commit);
      att := att - {t};
      SetIfUndecided(t, if commit then Committed else Aborted);
      assert Abs() == Decide(old(Abs()), t, commit);
    }

    method SetIfUndecided(t: TxnId, decision: TxnStatus)
      requires clog.Valid() && decision != InProgress
      modifies clog
      ensures clog.Valid()
      ensures forall s: TxnStatus :: s != InProgress ==>
        Logged(s) == old(Logged(s)) + if s == decision && old(clog.View(t)) == InProgress then iset{t} else iset{}
    {
      var now := clog.Get(t);
      if now == InProgress {
        clog.Set(t, decision);
      }
    }

    /** Memoised lookup. The answer is the uncached one for every id; the memo stays coherent exactly when the id
        is allocated, since asking about a later one memoises Aborted. */
    method GetStatus(t: TxnId) returns (s: TxnStatus)
      requires Valid()
      modifies this`cache, clog
      ensures Abs() == old(Abs()) && nextTxnId == old(nextTxnId)
      ensures s == Status(Abs(), t)
      ensures Valid() <==> t < nextTxnId
    {
      hide MemoCoherent;
      hide WellFormed;
      hide Status;
      MemoAnswers(cache, Abs(), t);
      if t in cache {
        s := cache[t];
        return;
      }
      s := StatusUncached(t);
      if s != InProgress {
        if |cache| >= CACHE_LIMIT {
          cache := map[];
        }
        MemoGrows(cache, Abs(), t);
        cache := cache[t := s];
      }
    }

    method StatusUncached(t: TxnId) returns (s: TxnStatus)
      requires clog.Valid()
      modifies clog
      ensures clog.Valid() && Abs() == old(Abs())
      ensures s == Status(Abs(), t)
    {
      var bits := clog.Get(t);
      match bits {
        case Committed => s := Committed;
        case Aborted => s := Aborted;
        case InProgress => s := if t in att then InProgress else Aborted;
      }
      assert forall d: TxnStatus :: Logged(d) == old(Logged(d));
    }

    method OpenSnapshot(t: TxnId) returns (snap: Snapshot)
      requires Valid()
      ensures snap == TakeSnapshot(Abs(), t)
    {
      snap := Snapshot(t, nextTxnId, att.Keys);
    }

    method IsVisible(xmin: TxnId, xmax: TxnId, snap: Snapshot) returns (r: bool)
      requires Valid() && snap.xmax <= nextTxnId
      modifies this`cache, clog
      ensures Valid() && Abs() == old(Abs())
      ensures r == Sees(Abs(), snap, xmin, xmax)
    {
      r := xmin == snap.txn;
      if !r {
        if xmin >= snap.xmax || xmin in snap.active {
          return;
        }
        var s := GetStatus(xmin);
        if s != Committed {
          return;
        }
        r := true;
      }
      if xmax == NO_TXN {
        return;
      }
      if xmax == snap.txn {
        return false;
      }
      if xmax >= snap.xmax || xmax in snap.active {
        return;
      }
      var s := GetStatus(xmax);
      r := s != Committed;
    }

    method OldestActiveXmin() returns (horizon: TxnId)
      requires Valid()
      ensures IsHorizon(Abs(), horizon)
    {
      horizon := nextTxnId;
      var rest := att.Keys;
      while rest != {}
        invariant rest <= att.Keys
        invariant forall t: TxnId :: t in att && t !in rest ==> horizon <= t
        invariant (rest == att.Keys && horizon == nextTxnId) || horizon in att
        decreases |rest|
      {
        var t: TxnId :| t in rest;
        if t < horizon {
          horizon := t;
        }
        rest := rest - {t};
      }
    }

    method IsTupleDead(xmin: TxnId, xmax: TxnId, horizon: TxnId) returns (dead: bool)
      requires Valid() && xmin < nextTxnId && horizon <= nextTxnId
      modifies this`cache, clog
      ensures Valid() && Abs() == old(Abs())
      ensures dead == TupleDead(xmax, horizon, Status(Abs(), xmin), Status(Abs(), xmax))
    {
      var s := GetStatus(xmin);
      if s == Aborted {
        return true;
      }
      if xmax != NO_TXN && xmax < horizon {
        s := GetStatus(xmax);
        return s == Committed;
      }
      return false;
    }
  }
}
