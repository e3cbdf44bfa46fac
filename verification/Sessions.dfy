/** A connection's transaction object: which ids it begins, and which of them it decides, how and when. */
module Sessions {
  import opened Common
  import opened Transactions

  /** A boundary change of an idle connection: the id in hand is closed as committed and a new one begun. */
  ghost function Renewed(s: Tm, t: TxnId): Tm {
    Begun(Decide(s, t, true))
  }

  lemma AbsFields(tm: TransactionManager)
    ensures tm.Abs().att == tm.att.Keys && tm.Abs().next == tm.nextTxnId
  {
  }

  class Transaction {
    const tm: TransactionManager
    var id: TxnId
    var active: bool
    var heldLocks: set<Rid>
    var lastLsn: Lsn
    var snapshot: Option<Snapshot>

    /** The id in hand is running or decided; an explicit transaction's id is running. */
    ghost predicate Valid()
      reads this, tm, tm.clog
    {
      && tm.Valid() && id < tm.nextTxnId
      && (id in tm.att || Decided(tm.Abs(), id))
      && (active ==> id in tm.att)
    }

    constructor (manager: TransactionManager)
      requires manager.Valid()
      modifies manager
      ensures Valid() && tm == manager && !active && heldLocks == {} && lastLsn == 0
      ensures id == old(manager.nextTxnId) && tm.Abs() == Begun(old(manager.Abs()))
      ensures snapshot == Some(TakeSnapshot(tm.Abs(), id))
    {
      hide TransactionManager.Valid;
      hide TransactionManager.Abs;
      hide TransactionManager.Logged;
      hide Decided;
      AbsFields(manager);
      tm := manager;
      active, heldLocks, lastLsn := false, {}, 0;
      new;
      id := tm.Begin();
      var snap := tm.OpenSnapshot(id);
      snapshot := Some(snap);
      AbsFields(tm);
    }

    /** BEGIN: closes the id of the boundary before it and starts an explicit transaction on a new one. */
    method Begin()
      requires Valid()
      modifies this, tm, tm.clog
      ensures Valid() && active && heldLocks == {} && lastLsn == 0
      ensures id == old(tm.nextTxnId) && tm.Abs() == Renewed(old(tm.Abs()), old(id))
      ensures snapshot == Some(TakeSnapshot(tm.Abs(), id))
    {
      hide TransactionManager.Valid;
      hide TransactionManager.Abs;
      hide TransactionManager.Logged;
      hide Decided;
      AbsFields(tm);
      tm.Commit(id);
      id := tm.Begin();
      active := true;
      heldLocks := {};
      lastLsn := 0;
      var snap := tm.OpenSnapshot(id);
      snapshot := Some(snap);
      AbsFields(tm);
    }

    method Commit()
      requires Valid()
      modifies this, tm`att, tm.clog
      ensures Valid() && !active && lastLsn == 0 && snapshot == None && id == old(id) && heldLocks == old(heldLocks)
      ensures tm.Abs() == Decide(old(tm.Abs()), id, true)
    {
      hide TransactionManager.Valid;
      hide TransactionManager.Abs;
      hide TransactionManager.Logged;
      hide Decided;
      active := false;
      lastLsn := 0;
      tm.Commit(id);
      snapshot := None;
      NowDecided(old(tm.Abs()), id, true);
      AbsFields(tm);
    }

    /** The boundary before a statement outside an explicit transaction; inside one it does nothing. */
    method RefreshAutocommit()
      requires Valid()
      modifies this, tm, tm.clog
      ensures Valid() && active == old(active)
      ensures active ==> tm.Abs() == old(tm.Abs()) && id == old(id)
      ensures active ==> snapshot == old(snapshot) && heldLocks == old(heldLocks)
      ensures !active ==> id == old(tm.nextTxnId) && tm.Abs() == Renewed(old(tm.Abs()), old(id))
      ensures !active ==> snapshot == Some(TakeSnapshot(tm.Abs(), id)) && heldLocks == {} && lastLsn == 0
    {
      hide TransactionManager.Valid;
      hide TransactionManager.Abs;
      hide TransactionManager.Logged;
      hide Decided;
      AbsFields(tm);
      if !active {
        tm.Commit(id);
        id := tm.Begin();
        heldLocks := {};
        lastLsn := 0;
        var snap := tm.OpenSnapshot(id);
        snapshot := Some(snap);
      }
      AbsFields(tm);
    }

    /** The last step of ROLLBACK. */
    method SetInactive()
      requires Valid()
      modifies this, tm`att, tm.clog
      ensures Valid() && !active && lastLsn == 0 && snapshot == None && id == old(id) && heldLocks == old(heldLocks)
      ensures tm.Abs() == Decide(old(tm.Abs()), id, false)
    {
      hide TransactionManager.Valid;
      hide TransactionManager.Abs;
      hide TransactionManager.Logged;
      hide Decided;
      active := false;
      lastLsn := 0;
      tm.Abort(id);
      snapshot := None;
      NowDecided(old(tm.Abs()), id, false);
      AbsFields(tm);
    }

    method SetLastLsn(lsn: Lsn)
      requires Valid()
      modifies this`lastLsn, tm`att
      ensures Valid() && lastLsn == lsn && tm.Abs() == old(tm.Abs())
      ensures id in tm.att ==> tm.att[id] == lsn
    {
      lastLsn := lsn;
      tm.UpdateLastLsn(id, lsn);
    }

    method AddLock(rid: Rid)
      modifies this`heldLocks
      ensures heldLocks == old(heldLocks) + {rid}
    {
      heldLocks := heldLocks + {rid};
    }

    method TakeHeldLocks() returns (held: set<Rid>)
      modifies this`heldLocks
      ensures held == old(heldLocks) && heldLocks == {}
    {
      held := heldLocks;
      heldLocks := {};
    }

    /** The connection is gone. */
    method Drop()
      requires Valid()
      modifies tm`att, tm.clog
      ensures tm.Valid() && tm.Abs() == Decide(old(tm.Abs()), id, false)
    {
      tm.Abort(id);
    }
  }

  // ---- many connections on one manager ----

  /** `Auto`: inside a statement without BEGIN; `Explicit`: between BEGIN and COMMIT or ROLLBACK. */
  datatype Mode = Idle | Auto | Explicit

  datatype Session = Session(id: TxnId, mode: Mode)

  datatype World = World(tm: Tm, open: map<nat, Session>)

  datatype Event =
    | Connect(s: nat)
    | StatementStarts(s: nat)
    | BeginExplicit(s: nat)
    | CommitExplicit(s: nat)
    | RollbackExplicit(s: nat)
    | StatementEnds(s: nat, ok: bool)
    | Disconnect(s: nat)

  ghost predicate Start(w: World) {
    WellFormed(w.tm) && w.tm.att == {} && w.open == map[]
  }

  /** COMMIT and ROLLBACK are refused outside an explicit transaction, BEGIN inside one. BEGIN itself is a
      statement that started outside. */
  predicate Enabled(w: World, e: Event) {
    if e.Connect? then e.s !in w.open
    else
      && e.s in w.open
      && match e
         case StatementStarts(s) => w.open[s].mode == Idle
         case BeginExplicit(s) => w.open[s].mode == Auto
         case StatementEnds(s, _) => w.open[s].mode == Auto
         case CommitExplicit(s) => w.open[s].mode == Explicit
         case RollbackExplicit(s) => w.open[s].mode == Explicit
         case Disconnect(_) => true
         case Connect(_) => true
  }

  /** What the event does, by the effects of the operations of `Transaction`. */
  ghost function After(w: World, e: Event): World
    requires Enabled(w, e)
  {
    match e
    case Connect(s) => World(Begun(w.tm), w.open[s := Session(w.tm.next, Idle)])
    case StatementStarts(s) => World(Renewed(w.tm, w.open[s].id), w.open[s := Session(w.tm.next, Auto)])
    case BeginExplicit(s) => World(Renewed(w.tm, w.open[s].id), w.open[s := Session(w.tm.next, Explicit)])
    case CommitExplicit(s) => World(Decide(w.tm, w.open[s].id, true), w.open[s := Session(w.open[s].id, Idle)])
    case RollbackExplicit(s) => World(Decide(w.tm, w.open[s].id, false), w.open[s := Session(w.open[s].id, Idle)])
    case StatementEnds(s, ok) => World(Decide(w.tm, w.open[s].id, ok), w.open[s := Session(w.open[s].id, Idle)])
    case Disconnect(s) => World(Decide(w.tm, w.open[s].id, false), w.open - {s})
  }

  ghost predicate Owned(open: map<nat, Session>, t: TxnId) {
    exists s :: s in open && open[s].id == t
  }

  /** Ids are not shared; a running statement or transaction has a running id; every running id belongs to an
      open connection; every id begun since `first` is running or decided. */
  ghost predicate Inv(w: World, first: TxnId) {
    && WellFormed(w.tm) && first <= w.tm.next
    && (forall s :: s in w.open ==>
      w.open[s].id < w.tm.next && (w.open[s].id in w.tm.att || Decided(w.tm, w.open[s].id)))
    && (forall s :: s in w.open && w.open[s].mode != Idle ==> w.open[s].id in w.tm.att)
    && (forall s, r :: s in w.open && r in w.open && s != r ==> w.open[s].id != w.open[r].id)
    && (forall t: TxnId :: t in w.tm.att ==> Owned(w.open, t))
    && (forall t: TxnId :: first <= t < w.tm.next ==> t in w.tm.att || Decided(w.tm, t))
  }

  lemma StepKeeps(w: World, e: Event, first: TxnId)
    requires Inv(w, first) && Enabled(w, e)
    ensures Inv(After(w, e), first)
    ensures forall t: TxnId :: Decided(w.tm, t) ==>
      Decided(After(w, e).tm, t) && Status(After(w, e).tm, t) == Status(w.tm, t)
  {
    hide Renewed;
    hide Decide;
    hide Begun;
    hide Inv;
    match e {
      case Connect(s) => ConnectKeeps(w, s, first);
      case StatementStarts(s) => RenewKeeps(w, s, Auto, first);
      case BeginExplicit(s) => RenewKeeps(w, s, Explicit, first);
      case CommitExplicit(s) => DecideKeepsInv(w, s, true, first);
      case RollbackExplicit(s) => DecideKeepsInv(w, s, false, first);
      case StatementEnds(s, ok) => DecideKeepsInv(w, s, ok, first);
      case Disconnect(s) => DisconnectKeeps(w, s, first);
    }
  }

  lemma StillOwned(open: map<nat, Session>, open': map<nat, Session>, t: TxnId, s: nat, id: TxnId)
    requires s in open' && open' == open[s := open'[s]] && open'[s].id == id && (s in open ==> open[s].id == id)
    requires t == id || Owned(open, t)
    ensures Owned(open', t)
  {
    if t == id {
      assert s in open' && open'[s].id == t;
    } else {
      var r :| r in open && open[r].id == t;
      assert r in open' && open'[r].id == t;
    }
  }

  lemma ConnectKeeps(w: World, s: nat, first: TxnId)
    requires Inv(w, first) && s !in w.open
    ensures Inv(World(Begun(w.tm), w.open[s := Session(w.tm.next, Idle)]), first)
    ensures forall t: TxnId :: Decided(w.tm, t) ==> Decided(Begun(w.tm), t) && Status(Begun(w.tm), t) == Status(w.tm, t)
  {
    var open' := w.open[s := Session(w.tm.next, Idle)];
    forall t: TxnId | t in Begun(w.tm).att ensures Owned(open', t) {
      StillOwned(w.open, open', t, s, w.tm.next);
    }
  }

  lemma DecideKeepsInv(w: World, s: nat, commit: bool, first: TxnId)
    requires Inv(w, first) && s in w.open
    ensures var t := w.open[s].id;
      && Inv(World(Decide(w.tm, t, commit), w.open[s := Session(t, Idle)]), first)
      && forall u: TxnId :: Decided(w.tm, u) ==>
           Decided(Decide(w.tm, t, commit), u) && Status(Decide(w.tm, t, commit), u) == Status(w.tm, u)
  {
    var t := w.open[s].id;
    var open' := w.open[s := Session(t, Idle)];
    DecideFacts(w.tm, t, commit);
    hide Decide;
    hide Decided;
    hide Status;
    hide WellFormed;
    forall u: TxnId | u in Decide(w.tm, t, commit).att ensures Owned(open', u) {
      StillOwned(w.open, open', u, s, t);
    }
  }

  /** A connection whose id is decided takes a new one. */
  lemma BegunKeepsInv(w: World, s: nat, mode: Mode, first: TxnId)
    requires Inv(w, first) && s in w.open && Decided(w.tm, w.open[s].id)
    ensures Inv(World(Begun(w.tm), w.open[s := Session(w.tm.next, mode)]), first)
    ensures forall u: TxnId :: Decided(w.tm, u) ==> Decided(Begun(w.tm), u) && Status(Begun(w.tm), u) == Status(w.tm, u)
  {
    var open' := w.open[s := Session(w.tm.next, mode)];
    BegunFacts(w.tm);
    hide Begun;
    hide Decided;
    hide Status;
    hide WellFormed;
    forall t: TxnId | t in Begun(w.tm).att ensures Owned(open', t) {
      if t != w.tm.next {
        assert Owned(w.open, t);
        var r :| r in w.open && w.open[r].id == t;
        assert r in open' && open'[r].id == t;
      } else {
        assert s in open' && open'[s].id == t;
      }
    }
  }

  /** A boundary is a decision followed by a new id in the same connection. */
  lemma RenewKeeps(w: World, s: nat, mode: Mode, first: TxnId)
    requires Inv(w, first) && s in w.open
    ensures Inv(World(Renewed(w.tm, w.open[s].id), w.open[s := Session(w.tm.next, mode)]), first)
    ensures forall u: TxnId :: Decided(w.tm, u) ==>
      Decided(Renewed(w.tm, w.open[s].id), u) && Status(Renewed(w.tm, w.open[s].id), u) == Status(w.tm, u)
  {
    var t := w.open[s].id;
    NowDecided(w.tm, t, true);
    DecideKeepsInv(w, s, true, first);
    hide Inv;
    hide Decide;
    hide Decided;
    hide Begun;
    hide Status;
    var mid := World(Decide(w.tm, t, true), w.open[s := Session(t, Idle)]);
    BegunKeepsInv(mid, s, mode, first);
    assert mid.open[s := Session(w.tm.next, mode)] == w.open[s := Session(w.tm.next, mode)];
  }

  lemma DecideFacts(tm: Tm, t: TxnId, commit: bool)
    requires WellFormed(tm) && (t in tm.att || Decided(tm, t))
    ensures var d := Decide(tm, t, commit);
      && WellFormed(d) && d.next == tm.next && d.att == tm.att - {t}
      && (forall u: TxnId :: Decided(d, u) <==> Decided(tm, u) || u == t)
      && (forall u: TxnId :: Decided(tm, u) ==> Status(d, u) == Status(tm, u))
  {
  }

  lemma BegunFacts(tm: Tm)
    requires WellFormed(tm)
    ensures var b := Begun(tm);
      && WellFormed(b) && b.next == tm.next + 1 && b.att == tm.att + {tm.next} && !Decided(tm, tm.next)
      && (forall u: TxnId :: Decided(b, u) <==> Decided(tm, u))
      && (forall u: TxnId :: Decided(tm, u) ==> Status(b, u) == Status(tm, u))
  {
  }

  lemma NowDecided(tm: Tm, t: TxnId, commit: bool)
    ensures Decided(Decide(tm, t, commit), t) && Decide(tm, t, commit).next == tm.next
  {
  }

  lemma DisconnectKeeps(w: World, s: nat, first: TxnId)
    requires Inv(w, first) && s in w.open
    ensures Inv(World(Decide(w.tm, w.open[s].id, false), w.open - {s}), first)
    ensures forall u: TxnId :: Decided(w.tm, u) ==>
      Decided(Decide(w.tm, w.open[s].id, false), u) && Status(Decide(w.tm, w.open[s].id, false), u) == Status(w.tm, u)
  {
    var open' := w.open - {s};
    DecideFacts(w.tm, w.open[s].id, false);
    hide Decide;
    hide Decided;
    hide Status;
    hide WellFormed;
    forall t: TxnId | t in Decide(w.tm, w.open[s].id, false).att ensures Owned(open', t) {
      assert Owned(w.open, t);
      var r :| r in w.open && w.open[r].id == t;
      assert r in open' && open'[r].id == t;
    }
  }

  ghost predicate IsRun(run: seq<World>, events: seq<Event>) {
    && |run| == |events| + 1 && Start(run[0])
    && forall i :: 0 <= i < |events| ==> Enabled(run[i], events[i]) && run[i + 1] == After(run[i], events[i])
  }

  lemma {:induction false} RunSafe(run: seq<World>, events: seq<Event>, n: nat)
    requires IsRun(run, events) && n < |run|
    ensures Inv(run[n], run[0].tm.next)
  {
    if n > 0 {
      RunSafe(run, events, n - 1);
      StepKeeps(run[n - 1], events[n - 1], run[0].tm.next);
    }
  }

  /** A decided id keeps its status, although later boundaries and the end of the connection decide it again. */
  lemma {:induction false} DecidedStays(run: seq<World>, events: seq<Event>, i: nat, j: nat, t: TxnId)
    requires IsRun(run, events) && i <= j < |run| && Decided(run[i].tm, t)
    ensures Decided(run[j].tm, t) && Status(run[j].tm, t) == Status(run[i].tm, t)
    decreases j
  {
    if i < j {
      DecidedStays(run, events, i, j - 1, t);
      RunSafe(run, events, j - 1);
      StepKeeps(run[j - 1], events[j - 1], run[0].tm.next);
    }
  }

  /** What a statement or an explicit transaction that ends with this event comes to. */
  predicate Ends(e: Event, mode: Mode) {
    e.CommitExplicit? || e.RollbackExplicit? || e.StatementEnds? || (e.Disconnect? && mode != Idle)
  }

  /** The fate of every transaction, for good: COMMIT commits it, ROLLBACK and a lost connection abort it, and a
      statement on its own commits when it succeeds and aborts when it fails. Until then it is in progress. */
  lemma Outcome(run: seq<World>, events: seq<Event>, i: nat, j: nat)
    requires IsRun(run, events) && i < j < |run|
    requires events[i].s in run[i].open && Ends(events[i], run[i].open[events[i].s].mode)
    ensures var t := run[i].open[events[i].s].id;
      && Status(run[i].tm, t) == InProgress
      && Status(run[j].tm, t) ==
         if events[i].CommitExplicit? || (events[i].StatementEnds? && events[i].ok) then Committed else Aborted
  {
    RunSafe(run, events, i);
    var t := run[i].open[events[i].s].id;
    assert t in run[i].tm.att;
    assert run[i + 1] == After(run[i], events[i]);
    DecidedStays(run, events, i + 1, j, t);
  }

  /** A boundary closes the id in hand, for good: as committed when nothing has decided it. */
  lemma BoundaryCommits(run: seq<World>, events: seq<Event>, i: nat, j: nat)
    requires IsRun(run, events) && i < j < |run| && (events[i].StatementStarts? || events[i].BeginExplicit?)
    ensures events[i].s in run[i].open
    ensures var t := run[i].open[events[i].s].id;
      Status(run[j].tm, t) == if Decided(run[i].tm, t) then Status(run[i].tm, t) else Committed
  {
    RunSafe(run, events, i);
    var t := run[i].open[events[i].s].id;
    assert run[i + 1] == After(run[i], events[i]);
    assert Decided(run[i + 1].tm, t);
    DecidedStays(run, events, i + 1, j, t);
  }

  /** Nothing is left behind: with no connection open, no id is active and every id begun is decided. */
  lemma NothingLeaks(run: seq<World>, events: seq<Event>, n: nat)
    requires IsRun(run, events) && n < |run| && run[n].open == map[]
    ensures run[n].tm.att == {}
    ensures forall t: TxnId :: run[0].tm.next <= t < run[n].tm.next ==> Decided(run[n].tm, t)
  {
    RunSafe(run, events, n);
    forall t: TxnId ensures t !in run[n].tm.att {
      assert !Owned(run[n].open, t);
    }
  }
}
