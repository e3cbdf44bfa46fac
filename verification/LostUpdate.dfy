/** UPDATE and DELETE of one row version by many transactions: lock, recheck the header, write xmax, and end
    the transaction, each as its own step. */
module LostUpdate {
  import opened Common
  import opened Transactions
  import L = Locks

  /** Where a transaction stands. */
  datatype Stage =
    | Working                 // between rows
    | Waiting(rid: Rid)       // asleep in `lock`
    | Locked(rid: Rid)        // `lock` returned, header not read yet
    | Cleared(rid: Rid)       // header recheck passed, xmax not written yet
    | Released                // locks gone, status not set yet (commit and auto-commit)
    | RolledBack              // status set to aborted, locks not released yet
    | Ended

  datatype World = World(
    tm: Tm,
    locks: map<Rid, L.LockState>,
    xmax: map<Rid, TxnId>,
    stage: map<TxnId, Stage>,
    held: map<TxnId, set<Rid>>,
    writes: seq<(TxnId, Rid)>)   // every xmax write so far, oldest first

  ghost predicate Start(w: World) {
    WellFormed(w.tm) && w.tm.att == {} && w == World(w.tm, map[], map[], map[], map[], [])
  }

  function HeldBy(w: World, t: TxnId): set<Rid> {
    if t in w.held then w.held[t] else {}
  }

  function Move(w: World, t: TxnId, s: Stage): World {
    w.(stage := w.stage[t := s])
  }

  function SetLock(w: World, rid: Rid, l: L.LockState): World {
    w.(locks := w.locks[rid := l])
  }

  function Hold(w: World, t: TxnId, rid: Rid): World {
    w.(held := w.held[t := HeldBy(w, t) + {rid}])
  }

  ghost predicate At(w: World, t: TxnId, s: Stage) {
    t in w.stage && w.stage[t] == s
  }

  // ---- the steps ----

  ghost predicate BeginStep(w: World, w': World) {
    w' == World(Begun(w.tm), w.locks, w.xmax, w.stage[w.tm.next := Working], w.held, w.writes)
  }

  /** A new row version appears, not deleted by anyone. */
  ghost predicate InsertStep(w: World, w': World, rid: Rid) {
    rid !in w.xmax && w' == w.(xmax := w.xmax[rid := NO_TXN])
  }

  ghost predicate AskStep(w: World, w': World, t: TxnId, rid: Rid) {
    && At(w, t, Working) && rid in w.xmax
    && var l := L.Requested(L.LockOf(w.locks, rid), t, L.Exclusive);
       w' == if t in l.holders then Hold(Move(SetLock(w, rid, l), t, Locked(rid)), t, rid)
             else Move(SetLock(w, rid, l), t, Waiting(rid))
  }

  ghost predicate WakeStep(w: World, w': World, t: TxnId, rid: Rid) {
    && At(w, t, Waiting(rid)) && t in L.LockOf(w.locks, rid).holders
    && w' == Hold(Move(w, t, Locked(rid)), t, rid)
  }

  ghost predicate TimeoutStep(w: World, w': World, t: TxnId, rid: Rid) {
    && At(w, t, Waiting(rid)) && t !in L.LockOf(w.locks, rid).holders
    && w' == Move(SetLock(w, rid, L.TimedOut(L.LockOf(w.locks, rid), t)), t, Working)
  }

  /** The post-lock recheck: a committed deleter restarts the statement, an undecided one fails it, and
      anything else lets the write go ahead. */
  ghost predicate RecheckStep(w: World, w': World, t: TxnId, rid: Rid) {
    && At(w, t, Locked(rid)) && rid in w.xmax
    && var x := w.xmax[rid];
       w' == Move(w, t,
         if x != NO_TXN && x != t && Status(w.tm, x) != Aborted then Working else Cleared(rid))
  }

  ghost predicate WriteStep(w: World, w': World, t: TxnId, rid: Rid) {
    && At(w, t, Cleared(rid))
    && w' == Move(w, t, Working).(xmax := w.xmax[rid := t], writes := w.writes + [(t, rid)])
  }

  ghost predicate LocksReleased(w: World, w': World, t: TxnId) {
    && w'.locks.Keys == w.locks.Keys
    && forall rid :: rid in w.locks ==>
         w'.locks[rid] == if rid in HeldBy(w, t) then L.Unlocked(w.locks[rid], t) else w.locks[rid]
  }

  /** COMMIT and the auto-commit boundary: locks first ... */
  ghost predicate ReleaseStep(w: World, w': World, t: TxnId) {
    && At(w, t, Working) && LocksReleased(w, w', t)
    && w' == Move(w, t, Released).(locks := w'.locks, held := w.held[t := {}])
  }

  /** ... and the status afterwards. */
  ghost predicate DecideStep(w: World, w': World, t: TxnId, commit: bool) {
    && At(w, t, Released)
    && w' == Move(w, t, Ended).(tm := Decide(w.tm, t, commit))
  }

  /** ROLLBACK: the status first ... */
  ghost predicate AbortStep(w: World, w': World, t: TxnId) {
    && At(w, t, Working)
    && w' == Move(w, t, RolledBack).(tm := Decide(w.tm, t, false))
  }

  /** ... and the locks afterwards. */
  ghost predicate ReleaseAfterAbortStep(w: World, w': World, t: TxnId) {
    && At(w, t, RolledBack) && LocksReleased(w, w', t)
    && w' == Move(w, t, Ended).(locks := w'.locks, held := w.held[t := {}])
  }

  datatype Action =
    | BeginTxn
    | InsertRow(rid: Rid)
    | Ask(txn: TxnId, rid: Rid)
    | Wake(txn: TxnId, rid: Rid)
    | TimeOut(txn: TxnId, rid: Rid)
    | Recheck(txn: TxnId, rid: Rid)
    | Write(txn: TxnId, rid: Rid)
    | Release(txn: TxnId)
    | SetStatus(txn: TxnId, commit: bool)
    | SetAborted(txn: TxnId)
    | ReleaseAfterAbort(txn: TxnId)

  ghost predicate Does(w: World, w': World, a: Action) {
    match a
    case BeginTxn => BeginStep(w, w')
    case InsertRow(rid) => InsertStep(w, w', rid)
    case Ask(t, rid) => AskStep(w, w', t, rid)
    case Wake(t, rid) => WakeStep(w, w', t, rid)
    case TimeOut(t, rid) => TimeoutStep(w, w', t, rid)
    case Recheck(t, rid) => RecheckStep(w, w', t, rid)
    case Write(t, rid) => WriteStep(w, w', t, rid)
    case Release(t) => ReleaseStep(w, w', t)
    case SetStatus(t, commit) => DecideStep(w, w', t, commit)
    case SetAborted(t) => AbortStep(w, w', t)
    case ReleaseAfterAbort(t) => ReleaseAfterAbortStep(w, w', t)
  }

  // ---- what every step keeps ----

  ghost predicate Busy(s: Stage) {
    !s.RolledBack? && !s.Ended?
  }

  /** The answer Aborted is final: the id is allocated and no longer active. */
  ghost predicate Dead(tm: Tm, t: TxnId) {
    t < tm.next && t !in tm.att && Status(tm, t) == Aborted
  }

  /** All row locks are Exclusive, and only sleeping transactions are queued. */
  ghost predicate LockOk(l: L.LockState, rid: Rid, stage: map<TxnId, Stage>) {
    && L.Inv(l)
    && (forall t :: t in l.holders ==> l.holders[t] == L.Exclusive)
    && (forall r :: r in l.queue ==> r.mode == L.Exclusive && r.txn in stage && stage[r.txn] == Waiting(rid))
  }

  ghost predicate LocksOk(locks: map<Rid, L.LockState>, stage: map<TxnId, Stage>) {
    forall rid :: rid in locks ==> LockOk(locks[rid], rid, stage)
  }

  /** A transaction past `lock` really holds the row, and one past the recheck may still overwrite xmax. */
  ghost predicate StageOk(t: TxnId, s: Stage, tm: Tm, locks: map<Rid, L.LockState>, xmax: map<Rid, TxnId>) {
    && NO_TXN < t < tm.next
    && (Busy(s) ==> t in tm.att)
    && (s.Waiting? ==> s.rid in xmax)
    && (s.Locked? || s.Cleared? ==> s.rid in xmax && t in L.LockOf(locks, s.rid).holders)
    && (s.Cleared? ==> xmax[s.rid] == NO_TXN || xmax[s.rid] == t || Dead(tm, xmax[s.rid]))
  }

  ghost predicate StagesOk(stage: map<TxnId, Stage>, tm: Tm, locks: map<Rid, L.LockState>, xmax: map<Rid, TxnId>) {
    forall t :: t in stage ==> StageOk(t, stage[t], tm, locks, xmax)
  }

  /** Whoever wrote a row's xmax is either its current xmax or aborted for good. */
  ghost predicate WritesOk(writes: seq<(TxnId, Rid)>, tm: Tm, xmax: map<Rid, TxnId>) {
    && (forall rid :: rid in xmax ==> xmax[rid] < tm.next)
    && (forall wr :: wr in writes ==> wr.0 != NO_TXN && wr.1 in xmax && (wr.0 == xmax[wr.1] || Dead(tm, wr.0)))
    && (forall rid :: rid in xmax && xmax[rid] != NO_TXN ==> (xmax[rid], rid) in writes)
  }

  ghost predicate Inv(w: World) {
    && WellFormed(w.tm)
    && LocksOk(w.locks, w.stage)
    && StagesOk(w.stage, w.tm, w.locks, w.xmax)
    && WritesOk(w.writes, w.tm, w.xmax)
  }

  lemma TmKeeps(s: Tm, s': Tm)
    requires WellFormed(s) && Transactions.Step(s, s')
    ensures WellFormed(s') && s.next <= s'.next
    ensures forall t: TxnId :: Dead(s, t) ==> Dead(s', t)
    ensures forall t: TxnId :: t in s.committed ==> t in s'.committed
  {
  }

  /** Grants from a queue of Exclusive requests stay Exclusive, and what is left of the queue was in it. */
  lemma {:induction false} GrantedExclusive(l: L.LockState)
    requires forall t :: t in l.holders ==> l.holders[t] == L.Exclusive
    requires forall r :: r in l.queue ==> r.mode == L.Exclusive
    ensures forall t :: t in L.GrantPrefix(l).holders ==> L.GrantPrefix(l).holders[t] == L.Exclusive
    ensures forall r :: r in L.GrantPrefix(l).queue ==> r in l.queue
    decreases |l.queue|
  {
    if l.queue != [] && L.Compatible(l.holders, l.queue[0]) {
      GrantedExclusive(L.LockState(L.Join(l.holders, l.queue[0]), l.queue[1..]));
    }
  }

  lemma UnlockKeeps(l: L.LockState, rid: Rid, stage: map<TxnId, Stage>, t: TxnId, s: Stage)
    requires LockOk(l, rid, stage) && t in stage && !stage[t].Waiting? && !s.Waiting?
    ensures LockOk(L.Unlocked(l, t), rid, stage[t := s])
    ensures forall u :: u in l.holders && u != t ==> u in L.Unlocked(l, t).holders
  {
    assert forall i :: 0 <= i < |l.queue| ==> l.queue[i] in l.queue;
    L.UnlockKeeps(l, t);
    L.WalkIsPrefix(l.(holders := l.holders - {t}));
    GrantedExclusive(l.(holders := l.holders - {t}));
  }

  lemma AskKeeps(w: World, w': World, t: TxnId, rid: Rid)
    requires Inv(w) && AskStep(w, w', t, rid)
    ensures Inv(w')
  {
    var l := L.LockOf(w.locks, rid);
    assert LockOk(l, rid, w.stage);
    AskLockKeeps(l, rid, w.stage, t);
    var l' := L.Requested(l, t, L.Exclusive);
    var s' := if t in l'.holders then Locked(rid) else Waiting(rid);
    assert w'.locks == w.locks[rid := l'] && w'.stage == w.stage[t := s'];
    assert w'.tm == w.tm && w'.xmax == w.xmax && w'.writes == w.writes;
    LocksUpdated(w.locks, w.stage, rid, l', t, s');
    StagesUpdated(w.stage, w.tm, w.locks, w.xmax, rid, l', t, s');
  }

  lemma LocksUpdated(locks: map<Rid, L.LockState>, stage: map<TxnId, Stage>, rid: Rid, l: L.LockState,
                     t: TxnId, s: Stage)
    requires LocksOk(locks, stage) && t in stage && !stage[t].Waiting? && LockOk(l, rid, stage[t := s])
    ensures LocksOk(locks[rid := l], stage[t := s])
  {
    forall r | r in locks && r != rid ensures LockOk(locks[r], r, stage[t := s]) {
      assert LockOk(locks[r], r, stage);
    }
  }

  lemma StagesUpdated(stage: map<TxnId, Stage>, tm: Tm, locks: map<Rid, L.LockState>, xmax: map<Rid, TxnId>,
                      rid: Rid, l: L.LockState, t: TxnId, s: Stage)
    requires StagesOk(stage, tm, locks, xmax) && t in stage
    requires forall u :: u in L.LockOf(locks, rid).holders ==> u in l.holders
    requires StageOk(t, s, tm, locks[rid := l], xmax)
    ensures StagesOk(stage[t := s], tm, locks[rid := l], xmax)
  {
    forall u | u in stage && u != t ensures StageOk(u, stage[u], tm, locks[rid := l], xmax) {
      assert StageOk(u, stage[u], tm, locks, xmax);
    }
  }

  lemma AskLockKeeps(l: L.LockState, rid: Rid, stage: map<TxnId, Stage>, t: TxnId)
    requires LockOk(l, rid, stage) && t in stage && !stage[t].Waiting?
    ensures var l' := L.Requested(l, t, L.Exclusive);
      && LockOk(l', rid, stage[t := if t in l'.holders then Locked(rid) else Waiting(rid)])
      && forall u :: u in l.holders ==> u in l'.holders
  {
    assert forall i :: 0 <= i < |l.queue| ==> l.queue[i] in l.queue;
    L.StepKeeps(l, L.Ask(t, L.Exclusive));
    var l' := L.Requested(l, t, L.Exclusive);
    assert t !in l'.holders ==> l'.queue == l.queue + [L.Request(t, L.Exclusive)];
  }

  lemma TimeoutKeeps(w: World, w': World, t: TxnId, rid: Rid)
    requires Inv(w) && TimeoutStep(w, w', t, rid)
    ensures Inv(w')
  {
    hide L.Inv;
    hide StageOk;
    hide WritesOk;
    var l := L.LockOf(w.locks, rid);
    var l' := L.TimedOut(l, t);
    assert rid in w.locks ==> LockOk(l, rid, w.stage);
    LockTimesOut(w, t, rid);
    StagesUpdated(w.stage, w.tm, w.locks, w.xmax, rid, l', t, Working);
    forall r | r in w.locks && r != rid ensures LockOk(w.locks[r], r, w'.stage) {
      assert LockOk(w.locks[r], r, w.stage);
    }
  }

  lemma LockTimesOut(w: World, t: TxnId, rid: Rid)
    requires Inv(w) && At(w, t, Waiting(rid)) && t !in L.LockOf(w.locks, rid).holders
    ensures var l' := L.TimedOut(L.LockOf(w.locks, rid), t);
      && LockOk(l', rid, w.stage[t := Working]) && l'.holders == L.LockOf(w.locks, rid).holders
      && StageOk(t, Working, w.tm, w.locks[rid := l'], w.xmax)
  {
    var l := L.LockOf(w.locks, rid);
    assert rid in w.locks ==> LockOk(w.locks[rid], rid, w.stage);
    assert StageOk(t, w.stage[t], w.tm, w.locks, w.xmax);
    L.TimedOutKeeps(l, t);
  }

  lemma WriteKeeps(w: World, w': World, t: TxnId, rid: Rid)
    requires Inv(w) && WriteStep(w, w', t, rid)
    ensures Inv(w')
  {
    assert StageOk(t, w.stage[t], w.tm, w.locks, w.xmax);
    assert LockOk(w.locks[rid], rid, w.stage);
    forall u | u in w'.stage ensures StageOk(u, w'.stage[u], w'.tm, w'.locks, w'.xmax) {
      assert StageOk(u, w.stage[u], w.tm, w.locks, w.xmax);
    }
  }

  lemma ReleaseKeeps(w: World, w': World, t: TxnId)
    requires Inv(w) && (ReleaseStep(w, w', t) || ReleaseAfterAbortStep(w, w', t))
    ensures Inv(w')
  {
    hide L.Inv;
    hide L.Unlocked;
    hide WritesOk;
    forall rid | rid in w.locks
      ensures LockOk(w'.locks[rid], rid, w'.stage)
      ensures forall u :: u in w.locks[rid].holders && u != t ==> u in w'.locks[rid].holders
    {
      UnlockKeeps(w.locks[rid], rid, w.stage, t, w'.stage[t]);
      SameLock(w.locks[rid], rid, w.stage, t, w'.stage[t]);
    }
    hide LockOk;
    forall u | u in w'.stage ensures StageOk(u, w'.stage[u], w'.tm, w'.locks, w'.xmax) {
      assert StageOk(u, w.stage[u], w.tm, w.locks, w.xmax);
    }
  }

  lemma SameLock(l: L.LockState, rid: Rid, stage: map<TxnId, Stage>, t: TxnId, s: Stage)
    requires LockOk(l, rid, stage) && t in stage && !stage[t].Waiting? && !s.Waiting?
    ensures LockOk(l, rid, stage[t := s])
  {
  }

  /** Steps that only move one transaction or the transaction manager. */
  lemma QuietKeeps(w: World, w': World)
    requires Inv(w) && Transactions.Step(w.tm, w'.tm)
    requires w'.locks == w.locks && w'.xmax == w.xmax && w'.writes == w.writes
    requires forall t :: t in w.stage ==> t in w'.stage
    requires forall t :: t in w'.stage ==> if t in w.stage && w.stage[t] == w'.stage[t]
      then Busy(w'.stage[t]) ==> t in w'.tm.att
      else StageOk(t, w'.stage[t], w'.tm, w.locks, w.xmax)
    requires forall t :: t in w.stage && w.stage[t].Waiting? && w'.stage[t] != w.stage[t] ==>
      t in L.LockOf(w.locks, w.stage[t].rid).holders
    ensures Inv(w')
  {
    TmKeeps(w.tm, w'.tm);
    forall rid | rid in w.locks ensures LockOk(w'.locks[rid], rid, w'.stage) {
      var l := w.locks[rid];
      assert LockOk(l, rid, w.stage);
      forall r | r in l.queue ensures r.txn in w'.stage && w'.stage[r.txn] == Waiting(rid) {
        var i :| 0 <= i < |l.queue| && l.queue[i] == r;
        assert r.txn !in l.holders;
      }
    }
    forall t | t in w'.stage ensures StageOk(t, w'.stage[t], w'.tm, w'.locks, w'.xmax) {
      if t in w.stage && w.stage[t] == w'.stage[t] {
        assert StageOk(t, w.stage[t], w.tm, w.locks, w.xmax);
      }
    }
  }

  lemma InsertKeeps(w: World, w': World, rid: Rid)
    requires Inv(w) && InsertStep(w, w', rid)
    ensures Inv(w')
  {
    forall t | t in w'.stage ensures StageOk(t, w'.stage[t], w'.tm, w'.locks, w'.xmax) {
      assert StageOk(t, w.stage[t], w.tm, w.locks, w.xmax);
    }
  }

  lemma BeginKeeps(w: World, w': World)
    requires Inv(w) && BeginStep(w, w')
    ensures Inv(w')
  {
    assert forall t :: t in w.stage ==> StageOk(t, w.stage[t], w.tm, w.locks, w.xmax);
    QuietKeeps(w, w');
  }

  lemma WakeKeeps(w: World, w': World, t: TxnId, rid: Rid)
    requires Inv(w) && WakeStep(w, w', t, rid)
    ensures Inv(w')
  {
    assert StageOk(t, w.stage[t], w.tm, w.locks, w.xmax);
    assert forall u :: u in w.stage && u != t ==> StageOk(u, w.stage[u], w.tm, w.locks, w.xmax);
    QuietKeeps(w, w');
  }

  lemma RecheckKeeps(w: World, w': World, t: TxnId, rid: Rid)
    requires Inv(w) && RecheckStep(w, w', t, rid)
    ensures Inv(w')
  {
    assert StageOk(t, w.stage[t], w.tm, w.locks, w.xmax);
    assert forall u :: u in w.stage && u != t ==> StageOk(u, w.stage[u], w.tm, w.locks, w.xmax);
    QuietKeeps(w, w');
  }

  lemma DecideKeeps(w: World, w': World, t: TxnId, commit: bool)
    requires Inv(w) && (DecideStep(w, w', t, commit) || (!commit && AbortStep(w, w', t)))
    ensures Inv(w')
  {
    assert StageOk(t, w.stage[t], w.tm, w.locks, w.xmax);
    assert forall u :: u in w.stage && u != t ==> StageOk(u, w.stage[u], w.tm, w.locks, w.xmax);
    assert w'.tm == Decide(w.tm, t, commit);
    QuietKeeps(w, w');
  }

  lemma StepKeeps(w: World, w': World, a: Action)
    requires Inv(w) && Does(w, w', a)
    ensures Inv(w')
  {
    match a
    case BeginTxn => BeginKeeps(w, w');
    case InsertRow(rid) => InsertKeeps(w, w', rid);
    case Ask(t, rid) => AskKeeps(w, w', t, rid);
    case Wake(t, rid) => WakeKeeps(w, w', t, rid);
    case TimeOut(t, rid) => TimeoutKeeps(w, w', t, rid);
    case Recheck(t, rid) => RecheckKeeps(w, w', t, rid);
    case Write(t, rid) => WriteKeeps(w, w', t, rid);
    case Release(t) => ReleaseKeeps(w, w', t);
    case SetStatus(t, commit) => DecideKeeps(w, w', t, commit);
    case SetAborted(t) => DecideKeeps(w, w', t, false);
    case ReleaseAfterAbort(t) => ReleaseKeeps(w, w', t);
  }

  /** A run: `acts[i]` leads from `run[i]` to `run[i + 1]`. */
  ghost predicate IsRun(run: seq<World>, acts: seq<Action>) {
    && |run| == |acts| + 1
    && Start(run[0])
    && forall i :: 0 <= i < |acts| ==> Does(run[i], run[i + 1], acts[i])
  }

  lemma {:induction false} RunSafe(run: seq<World>, acts: seq<Action>, n: nat)
    requires IsRun(run, acts) && n < |run|
    ensures Inv(run[n])
  {
    if n > 0 {
      RunSafe(run, acts, n - 1);
      StepKeeps(run[n - 1], run[n], acts[n - 1]);
    }
  }

  // ---- locks are given back ----

  /** Whoever holds a row's lock knows of it, or is about to wake up; and nobody keeps a lock past its release. */
  ghost predicate HeldOk(w: World) {
    && (forall rid, u :: rid in w.locks && u in w.locks[rid].holders ==>
          u in w.stage && (rid in HeldBy(w, u) || w.stage[u] == Waiting(rid)))
    && (forall u :: u in w.stage && (w.stage[u].Released? || w.stage[u].Ended?) ==> HeldBy(w, u) == {})
  }

  lemma StepKeepsHeld(w: World, w': World, a: Action)
    requires Inv(w) && HeldOk(w) && Does(w, w', a)
    ensures HeldOk(w')
  {
    hide Inv;
    hide HeldOk;
    match a
    case BeginTxn => BeginKeepsHeld(w, w');
    case Ask(t, rid) => AskKeepsHeld(w, w', t, rid);
    case TimeOut(t, rid) => TimeoutKeepsHeld(w, w', t, rid);
    case Wake(t, rid) => WakeKeepsHeld(w, w', t, rid);
    case Release(t) => ReleaseKeepsHeld(w, w', t);
    case ReleaseAfterAbort(t) => ReleaseKeepsHeld(w, w', t);
    case InsertRow(rid) => MoveKeepsHeld(w, w', 0);
    case Recheck(t, rid) => MoveKeepsHeld(w, w', t);
    case Write(t, rid) => MoveKeepsHeld(w, w', t);
    case SetStatus(t, commit) => MoveKeepsHeld(w, w', t);
    case SetAborted(t) => MoveKeepsHeld(w, w', t);
  }

  /** A transaction that is not asleep moves on, and no lock changes. */
  lemma MoveKeepsHeld(w: World, w': World, t: TxnId)
    requires HeldOk(w) && w'.locks == w.locks && w'.held == w.held && w.stage.Keys <= w'.stage.Keys
    requires forall u :: u in w'.stage && u != t ==> u in w.stage && w'.stage[u] == w.stage[u]
    requires t in w'.stage ==> t in w.stage
    requires t in w'.stage && w'.stage[t] != w.stage[t] ==>
      !w.stage[t].Waiting? && (w'.stage[t].Released? || w'.stage[t].Ended? ==> w.stage[t].Released?)
    ensures HeldOk(w')
  {
  }

  lemma AskKeepsHeld(w: World, w': World, t: TxnId, rid: Rid)
    requires HeldOk(w) && AskStep(w, w', t, rid)
    ensures HeldOk(w')
  {
    var l' := L.Requested(L.LockOf(w.locks, rid), t, L.Exclusive);
    AskedHolders(L.LockOf(w.locks, rid), t);
    hide L.Requested;
    if t in l'.holders {
      assert HeldBy(w', t) == HeldBy(w, t) + {rid};
    } else {
      assert w'.held == w.held;
    }
  }

  lemma AskedHolders(l: L.LockState, t: TxnId)
    ensures forall u :: u in L.Requested(l, t, L.Exclusive).holders ==> u in l.holders || u == t
  {
  }

  lemma TimeoutKeepsHeld(w: World, w': World, t: TxnId, rid: Rid)
    requires HeldOk(w) && TimeoutStep(w, w', t, rid)
    ensures HeldOk(w')
  {
    assert L.TimedOut(L.LockOf(w.locks, rid), t).holders == L.LockOf(w.locks, rid).holders;
    hide L.TimedOut;
  }

  lemma WakeKeepsHeld(w: World, w': World, t: TxnId, rid: Rid)
    requires HeldOk(w) && WakeStep(w, w', t, rid)
    ensures HeldOk(w')
  {
  }

  lemma BeginKeepsHeld(w: World, w': World)
    requires Inv(w) && HeldOk(w) && BeginStep(w, w')
    ensures HeldOk(w')
  {
    assert w.tm.next in w.stage ==> StageOk(w.tm.next, w.stage[w.tm.next], w.tm, w.locks, w.xmax);
    hide LocksOk;
    hide StagesOk;
    hide WritesOk;
  }

  /** Who holds a row after an unlock: whoever did, and some that were asleep waiting for it. */
  lemma UnlockedHolders(l: L.LockState, rid: Rid, stage: map<TxnId, Stage>, t: TxnId)
    requires LockOk(l, rid, stage) && t in stage && !stage[t].Waiting?
    ensures forall u :: u in L.Unlocked(l, t).holders ==>
      u != t && (u in l.holders || (u in stage && stage[u] == Waiting(rid)))
  {
    assert forall i :: 0 <= i < |l.queue| ==> l.queue[i] in l.queue;
    L.UnlockKeeps(l, t);
    hide L.Inv;
    hide L.Unlocked;
  }

  lemma ReleaseKeepsHeld(w: World, w': World, t: TxnId)
    requires Inv(w) && HeldOk(w) && (ReleaseStep(w, w', t) || ReleaseAfterAbortStep(w, w', t))
    ensures HeldOk(w')
  {
    hide L.Unlocked;
    hide LockOk;
    hide StagesOk;
    hide WritesOk;
    forall rid, u | rid in w'.locks && u in w'.locks[rid].holders
      ensures u in w'.stage && (rid in HeldBy(w', u) || w'.stage[u] == Waiting(rid))
    {
      if rid in HeldBy(w, t) {
        UnlockedHolders(w.locks[rid], rid, w.stage, t);
      }
    }
  }

  lemma {:induction false} RunHeld(run: seq<World>, acts: seq<Action>, n: nat)
    requires IsRun(run, acts) && n < |run|
    ensures HeldOk(run[n])
  {
    if n > 0 {
      RunHeld(run, acts, n - 1);
      RunSafe(run, acts, n - 1);
      StepKeepsHeld(run[n - 1], run[n], acts[n - 1]);
    }
  }

  /** In every run a transaction that has released its locks, or ended, holds none, however it ended. */
  lemma LocksGone(run: seq<World>, acts: seq<Action>, n: nat, t: TxnId, rid: Rid)
    requires IsRun(run, acts) && n < |run| && (At(run[n], t, Released) || At(run[n], t, Ended))
    ensures t !in L.LockOf(run[n].locks, rid).holders
  {
    RunHeld(run, acts, n);
  }

  // ---- nothing is refused without need ----

  /** Every writer of the row so far, other than `t`, has aborted. */
  ghost predicate OthersAborted(w: World, t: TxnId, rid: Rid) {
    forall wr :: wr in w.writes && wr.1 == rid ==> wr.0 == t || Status(w.tm, wr.0) == Aborted
  }

  /** The recheck in terms of what has happened to the row: it lets the write go ahead exactly when every other
      transaction that ever wrote the row's xmax has aborted, and otherwise sends the writer back. */
  lemma RecheckExactly(w: World, w': World, t: TxnId, rid: Rid)
    requires Inv(w) && Does(w, w', Recheck(t, rid))
    ensures At(w', t, Cleared(rid)) <==> OthersAborted(w, t, rid)
    ensures At(w', t, Working) <==> !OthersAborted(w, t, rid)
  {
  }

  /** In every run a transaction between rows that gets the lock at once can write
      a row's xmax, by lock, recheck and write, exactly when every other writer of the row has aborted. */
  lemma WritableExactly(run: seq<World>, acts: seq<Action>, n: nat, t: TxnId, rid: Rid)
    requires IsRun(run, acts) && n < |run| && At(run[n], t, Working) && rid in run[n].xmax
    requires L.CanGrant(L.LockOf(run[n].locks, rid), t, L.Exclusive)
    ensures OthersAborted(run[n], t, rid) <==>
      exists w1, w2, w3 :: Does(run[n], w1, Ask(t, rid)) && Does(w1, w2, Recheck(t, rid)) && Does(w2, w3, Write(t, rid))
        && w3.xmax[rid] == t
  {
    RunSafe(run, acts, n);
    var w := run[n];
    var l := L.Requested(L.LockOf(w.locks, rid), t, L.Exclusive);
    var w1 := Hold(Move(SetLock(w, rid, l), t, Locked(rid)), t, rid);
    assert Does(w, w1, Ask(t, rid));
    StepKeeps(w, w1, Ask(t, rid));
    assert OthersAborted(w1, t, rid) == OthersAborted(w, t, rid);
    if OthersAborted(w, t, rid) {
      var w2 := Move(w1, t, Cleared(rid));
      var w3 := Move(w2, t, Working).(xmax := w2.xmax[rid := t], writes := w2.writes + [(t, rid)]);
      assert Does(w1, w2, Recheck(t, rid)) && Does(w2, w3, Write(t, rid));
    }
    forall u1, u2, u3 | Does(w, u1, Ask(t, rid)) && Does(u1, u2, Recheck(t, rid)) && Does(u2, u3, Write(t, rid))
      ensures OthersAborted(w, t, rid)
    {
      assert u1 == w1;
      RecheckExactly(u1, u2, t, rid);
    }
  }

  /** No lost update: of all transactions that ever wrote one row version's xmax, at most one commits. */
  lemma NoLostUpdate(run: seq<World>, acts: seq<Action>, n: nat, rid: Rid, t: TxnId, u: TxnId)
    requires IsRun(run, acts) && n < |run|
    requires (t, rid) in run[n].writes && (u, rid) in run[n].writes
    requires t in run[n].tm.committed && u in run[n].tm.committed
    ensures t == u
  {
    RunSafe(run, acts, n);
  }

  /** Once a row's xmax names a committed transaction, no later step writes that field. */
  lemma {:induction false} CommittedDeleteStays(run: seq<World>, acts: seq<Action>, i: nat, j: nat, rid: Rid)
    requires IsRun(run, acts) && i <= j < |run|
    requires rid in run[i].xmax && run[i].xmax[rid] in run[i].tm.committed && run[i].xmax[rid] != NO_TXN
    ensures rid in run[j].xmax && run[j].xmax[rid] == run[i].xmax[rid] && run[j].xmax[rid] in run[j].tm.committed
    ensures forall k :: i <= k < j && acts[k].Write? ==> acts[k].rid != rid
    decreases j
  {
    if i < j {
      CommittedDeleteStays(run, acts, i, j - 1, rid);
      RunSafe(run, acts, j - 1);
      CommittedKept(run[j - 1], run[j], acts[j - 1], rid);
    }
  }

  lemma CommittedKept(w: World, w': World, a: Action, rid: Rid)
    requires Inv(w) && Does(w, w', a)
    requires rid in w.xmax && w.xmax[rid] in w.tm.committed && w.xmax[rid] != NO_TXN
    ensures rid in w'.xmax && w'.xmax[rid] == w.xmax[rid] && w'.xmax[rid] in w'.tm.committed
    ensures a.Write? ==> a.rid != rid
  {
    if a.Write? {
      assert StageOk(a.txn, w.stage[a.txn], w.tm, w.locks, w.xmax);
    }
  }
}
