/** CHECKPOINT among running transactions: it flushes the statuses before it writes down the next id, and a crash in
    between can make recovery hand out an id that the CLOG file has decided already. */
module Checkpoints {
  import opened Common
  import opened HeapLog
  import opened Transactions
  import opened CrashRecovery

  /** A run that goes on from `s` without another flush of the statuses. */
  ghost predicate Continues(run: seq<Db>, acts: seq<Action>, s: Db) {
    && |run| == |acts| + 1 && run[0] == s
    && forall i :: 0 <= i < |acts| ==> Does(run[i], run[i + 1], acts[i]) && !acts[i].FlushStatuses?
  }

  /** An id is in use again although its fate is decided: the first decision wins, whatever its new user does. */
  ghost predicate Reissued(s: Db) {
    s.phase.Running? && exists t: TxnId :: t in s.tm.att && Decided(s.tm, t)
  }

  ghost predicate Harmless(s: Db) {
    forall run: seq<Db>, acts: seq<Action>, n: nat :: Continues(run, acts, s) && n < |run| ==> !Reissued(run[n])
  }

  /** Flushing the statuses now is harmless, whatever crashes and recoveries follow, exactly when every id that has a
      status is known to recovery: it is at most the largest id in the durable log or the next id that the last
      checkpoint wrote down. */
  lemma CheckpointSafeExactly(s: Db)
    requires Inv(s) && s.phase.Running?
    ensures Covered(s) <==> Harmless(s.(saved := s.tm))
  {
    var s' := s.(saved := s.tm);
    StepStored(s, s', FlushStatuses);
    if Covered(s) {
      StepKeeps(s, s', FlushStatuses);
      forall run: seq<Db>, acts: seq<Action>, n: nat | Continues(run, acts, s') && n < |run|
        ensures !Reissued(run[n])
      {
        StaysInv(run, acts, s', n);
      }
    } else {
      var t: TxnId :| Decided(s.tm, t) && t > KnownId(s.log, s.flushed, s.savedNext);
      var last := Reissue(s', t);
      var run, acts :| Continues(run, acts, s') && run[|acts|] == last;
    }
  }

  /** With the next id written down before the statuses are flushed, every flush is covered. */
  lemma NextIdFirst(s: Db)
    requires Inv(s) && s.phase.Running?
    ensures Covered(s.(savedNext := s.tm.next))
  {
  }

  lemma {:induction false} StaysInv(run: seq<Db>, acts: seq<Action>, s: Db, n: nat)
    requires Continues(run, acts, s) && Inv(s) && n < |run|
    ensures Inv(run[n])
  {
    if n > 0 {
      StaysInv(run, acts, s, n - 1);
      StepKeeps(run[n - 1], run[n], acts[n - 1]);
    }
  }

  // ---- a recovery that hands out an uncovered id ----

  ghost predicate Reaches(s: Db, s': Db) {
    exists run: seq<Db>, acts: seq<Action> :: Continues(run, acts, s) && run[|acts|] == s'
  }

  lemma ReachesItself(s: Db)
    ensures Reaches(s, s)
  {
    var acts: seq<Action> := [];
    assert Continues([s], acts, s) && [s][|acts|] == s;
  }

  lemma ReachesOn(s: Db, s1: Db, s2: Db, a: Action)
    requires Reaches(s, s1) && Does(s1, s2, a) && !a.FlushStatuses?
    ensures Reaches(s, s2)
  {
    hide Does;
    var run, acts :| Continues(run, acts, s) && run[|acts|] == s1;
    var run', acts' := run + [s2], acts + [a];
    forall i | 0 <= i < |acts'| ensures Does(run'[i], run'[i + 1], acts'[i]) && !acts'[i].FlushStatuses? {
      if i < |acts| {
        assert Does(run[i], run[i + 1], acts[i]);
      }
    }
    assert Continues(run', acts', s) && run'[|acts'|] == s2;
  }

  /** What the recovery at hand still knows of the crash. */
  ghost predicate Recovers(s: Db, records: seq<Record>, saved: Tm, savedNext: TxnId) {
    Stored(s) && Survived(s, records) && s.saved == saved && s.savedNext == savedNext
  }

  lemma CrashNow(s: Db) returns (s': Db)
    requires Stored(s) && s.phase.Running?
    ensures Reaches(s, s') && Recovers(s', s.log[..s.flushed], s.saved, s.savedNext)
  {
    var image := seq(|s.disk|, i requires 0 <= i < |s.disk| => |s.disk[i]| - 1);
    s' := Crashed(s, s.flushed, image);
    assert Does(s, s', Crash(s.flushed, image));
    StepStored(s, s', Crash(s.flushed, image));
    ReachesItself(s);
    ReachesOn(s, s, s', Crash(s.flushed, image));
  }

  lemma {:induction false} RedoAll(s: Db, s1: Db, records: seq<Record>, saved: Tm, savedNext: TxnId) returns (s2: Db)
    requires Reaches(s, s1) && Recovers(s1, records, saved, savedNext)
    ensures Reaches(s, s2) && Recovers(s2, records, saved, savedNext) && s2.phase.done == s2.phase.base
    decreases s1.phase.base - s1.phase.done
  {
    s2 := s1;
    if s1.phase.done < s1.phase.base {
      s2 := RedoOnce(s1);
      StepStored(s1, s2, RedoNext);
      ReachesOn(s, s1, s2, RedoNext);
      hide Stored;
      hide Does;
      s2 := RedoAll(s, s2, records, saved, savedNext);
    }
  }

  lemma RedoOnce(s: Db) returns (s': Db)
    requires Stored(s) && s.phase.Redoing? && s.phase.done < s.phase.base
    ensures Does(s, s', RedoNext)
    ensures s'.log == s.log && s'.saved == s.saved && s'.savedNext == s.savedNext
    ensures s'.phase == Redoing(s.phase.base, s.phase.done + 1)
  {
    RedoOneStep(s.log, s.phase.done, s.pages);
    var pages := RedoOne(s.pages, s.log[s.phase.done]).value.pages;
    s' := s.(pages := pages, disk := Extended(s.disk, |pages|), phase := Redoing(s.phase.base, s.phase.done + 1));
  }

  /** Abort records for everything in flight, from the largest id down. */
  lemma {:induction false} AbortAll(s: Db, s1: Db, records: seq<Record>, saved: Tm, savedNext: TxnId, bound: nat)
    returns (s2: Db)
    requires Reaches(s, s1) && Recovers(s1, records, saved, savedNext) && s1.phase.done == s1.phase.base
    requires forall t: TxnId :: InFlight(s1.log, t) ==> t < bound
    ensures Reaches(s, s2) && Recovers(s2, records, saved, savedNext) && AllUndone(s2)
    decreases bound
  {
    s2 := s1;
    if bound > 0 {
      var t := bound - 1;
      if InFlight(s1.log, t) {
        s2 := Logged(s1, t, Abort);
        assert Does(s1, s2, LogInFlightAbort(t));
        StepStored(s1, s2, LogInFlightAbort(t));
        ReachesOn(s, s1, s2, LogInFlightAbort(t));
        AbortedLands(s1.log, s2.log[|s1.log|]);
        StillLogged(s1, s2, LogInFlightAbort(t), records);
      }
      hide Stored;
      hide InFlight;
      s2 := AbortAll(s, s2, records, saved, savedNext, t);
    }
  }

  lemma AbortedLands(log: seq<Record>, r: Record)
    requires r.payload.Abort?
    ensures forall t :: InFlight(log + [r], t) ==> InFlight(log, t) && t != r.txn
  {
    var more := log + [r];
    assert more[|log|] == r && forall i :: 0 <= i < |log| ==> more[i] == log[i];
    forall t | InFlight(more, t) ensures InFlight(log, t) && t != r.txn {
      var b :| 0 <= b < |more| && more[b].txn == t && more[b].payload.Begin?;
      var d :| 0 <= d < |more| && more[d].txn == t && (more[d].payload.Insert? || more[d].payload.SetXmax?);
      assert log[b].txn == t && log[d].txn == t;
    }
  }

  lemma {:induction false} BeginUpTo(s: Db, s1: Db, t: TxnId) returns (s2: Db)
    requires Reaches(s, s1) && s1.phase.Running? && s1.tm.next <= t && Decided(s1.tm, t)
    ensures Reaches(s, s2) && Reissued(s2)
    decreases t - s1.tm.next
  {
    s2 := s1.(tm := Begun(s1.tm));
    assert Does(s1, s2, BeginTxn);
    ReachesOn(s, s1, s2, BeginTxn);
    if s1.tm.next < t {
      s2 := BeginUpTo(s, s2, t);
    } else {
      assert t in s2.tm.att && Decided(s2.tm, t);
    }
  }

  lemma Reissue(s: Db, t: TxnId) returns (last: Db)
    requires Stored(s) && s.phase.Running? && Decided(s.saved, t) && t > KnownId(s.log, s.flushed, s.savedNext)
    ensures Reaches(s, last) && Reissued(last)
  {
    var records := s.log[..s.flushed];
    var s1 := CrashNow(s);
    s1 := RedoAll(s, s1, records, s.saved, s.savedNext);
    var bound := MaxTxn(records) + 1;
    forall u: TxnId | InFlight(s1.log, u) ensures u < bound {
      InFlightBefore(s1, u);
      InFlightBounded(records, u);
    }
    s1 := AbortAll(s, s1, records, s.saved, s.savedNext, bound);
    last := Finished(s1);
    assert Does(s1, last, Finish);
    ReachesOn(s, s1, last, Finish);
    MaxTxnBounds(records);
    assert !HasCommit(records, t) && !InFlight(records, t);
    assert Decided(last.tm, t);
    last := BeginUpTo(s, last, t);
  }

  // ---- what comes of it ----

  /** The statuses of an engine in which id 1, and no other, has been closed as committed. */
  ghost function OneClosed(next: TxnId, att: set<TxnId>): Tm {
    Tm(next, att, iset{1}, iset{})
  }

  ghost function Engine(log: seq<Record>, pages: seq<HeapPage>, tm: Tm, saved: Tm): Db {
    Db(log, 0, pages, if pages == [] then [] else [[EMPTY_PAGE]], tm, saved, 0, Running)
  }

  const NOTHING := Tm(1, {}, iset{}, iset{})
  const FIRST := Tm(2, {1}, iset{}, iset{})

  lemma StartRun() returns (run: seq<Db>, acts: seq<Action>)
    ensures CrashRecovery.IsRun(run, acts) && run[|acts|] == Engine([], [], NOTHING, NOTHING)
  {
    run, acts := [Engine([], [], NOTHING, NOTHING)], [];
  }

  /** One more step; what stands at index `c` stays there. */
  lemma Then(run: seq<Db>, acts: seq<Action>, s: Db, a: Action, c: nat := 0)
    returns (run': seq<Db>, acts': seq<Action>)
    requires CrashRecovery.IsRun(run, acts) && Does(run[|acts|], s, a) && c <= |acts|
    ensures CrashRecovery.IsRun(run', acts') && |acts'| == |acts| + 1 && run'[|acts'|] == s && acts'[|acts|] == a
    ensures run'[c] == run[c] && (c < |acts| ==> acts'[c] == acts[c])
  {
    hide Does;
    run', acts' := run + [s], acts + [a];
    forall i | 0 <= i < |acts'| ensures Does(run'[i], run'[i + 1], acts'[i]) {
      if i < |acts| {
        assert Does(run[i], run[i + 1], acts[i]);
      }
    }
  }

  lemma BeginsFirst()
    ensures Does(Engine([], [], NOTHING, NOTHING), Engine([], [], FIRST, NOTHING), BeginTxn)
  {
  }

  lemma ClosesFirst(log: seq<Record>, pages: seq<HeapPage>)
    requires Undecided(log, 1) && !HasBegin(log, 1)
    ensures Does(Engine(log, pages, FIRST, NOTHING), Engine(log, pages, OneClosed(2, {}), NOTHING), Close(1))
  {
  }

  lemma ChecksAndBeginsAgain()
    ensures Does(Engine([], [], OneClosed(2, {}), NOTHING), Engine([], [], OneClosed(2, {}), OneClosed(2, {})),
                 FlushStatuses)
    ensures Does(Engine([], [], OneClosed(1, {}), OneClosed(1, {})),
                 Engine([], [], OneClosed(2, {1}), OneClosed(1, {})), BeginTxn)
  {
  }

  /** An empty log after the crash: recovery keeps the CLOG file and starts counting from 1. */
  lemma EmptyLogRecovers(s: Db)
    requires s == Engine([], [], OneClosed(2, {}), OneClosed(2, {}))
    ensures var c := Crashed(s, 0, []);
      Does(s, c, Crash(0, [])) && Does(c, Engine([], [], OneClosed(1, {}), OneClosed(1, {})), Finish)
  {
    var c := Crashed(s, 0, []);
    assert c.log == [] && c.pages == [];
    assert MaxTxn(c.log[..0]) == 0;
    assert Recorded(c) == OneClosed(1, {});
  }

  /** An idle connection's id is closed, CHECKPOINT flushes the statuses, and the engine stops before the next id is
      written down: recovery of the empty log hands the id out again. */
  lemma ClosedIdReturns() returns (run: seq<Db>, acts: seq<Action>)
    ensures CrashRecovery.IsRun(run, acts) && run[|acts|] == Engine([], [], OneClosed(2, {1}), OneClosed(1, {}))
  {
    var s := Engine([], [], OneClosed(2, {}), OneClosed(2, {}));
    var c := Crashed(s, 0, []);
    BeginsFirst();
    ClosesFirst([], []);
    ChecksAndBeginsAgain();
    EmptyLogRecovers(s);
    hide *;
    run, acts := StartRun();
    run, acts := Then(run, acts, Engine([], [], FIRST, NOTHING), BeginTxn);
    run, acts := Then(run, acts, Engine([], [], OneClosed(2, {}), NOTHING), Close(1));
    run, acts := Then(run, acts, s, FlushStatuses);
    run, acts := Then(run, acts, c, Crash(0, []));
    run, acts := Then(run, acts, Engine([], [], OneClosed(1, {}), OneClosed(1, {})), Finish);
    run, acts := Then(run, acts, Engine([], [], OneClosed(2, {1}), OneClosed(1, {})), BeginTxn);
  }

  /** The first row of the first page, written by transaction 1. */
  function FirstInsert(lsn: Lsn): Record {
    Record(lsn, 1, Insert(Rid(0, 0), Tup(1, NO_TXN, [])))
  }

  function FirstPage(lsn: Lsn): HeapPage {
    HeapPage(lsn, [Tup(1, NO_TXN, [])])
  }

  lemma AddsFirstPage(log: seq<Record>, tm: Tm, saved: Tm)
    ensures Does(Engine(log, [], tm, saved), Engine(log, [EMPTY_PAGE], tm, saved), NewPage)
  {
  }

  lemma InsertsFirst(log: seq<Record>, tm: Tm, saved: Tm)
    requires 1 in tm.att && Undecided(log, 1)
    ensures Does(Engine(log, [EMPTY_PAGE], tm, saved),
                 Engine(log + [FirstInsert(|log| + 1)], [FirstPage(|log| + 1)], tm, saved), InsertRow(1, 0, []))
  {
    var s := Engine(log, [EMPTY_PAGE], tm, saved);
    assert Space(EMPTY_PAGE.slots) == 0;
    var r := FirstInsert(|log| + 1);
    assert Apply(EMPTY_PAGE, r, 0) == FirstPage(|log| + 1);
    assert Changed(s, 1, r.payload).pages == [FirstPage(|log| + 1)];
  }

  const BEGIN := Record(1, 1, Begin)
  const ABORT := Record(3, 1, Abort)

  /** The log of transaction 1 up to its row, and up to its end. */
  const WRITTEN := [BEGIN, FirstInsert(2)]
  const ROLLED_BACK := [BEGIN, FirstInsert(2), ABORT]

  lemma BeginsAgain(tm: Tm, saved: Tm)
    requires tm == OneClosed(2, {1})
    ensures Does(Engine([], [], tm, saved), Engine([BEGIN], [], tm, saved), LogBegin(1))
    ensures Does(Engine([BEGIN], [EMPTY_PAGE], tm, saved), Engine(WRITTEN, [FirstPage(2)], tm, saved),
                 InsertRow(1, 0, []))
  {
    InsertsFirst([BEGIN], tm, saved);
    assert [BEGIN] + [FirstInsert(2)] == WRITTEN;
  }

  lemma RollsBack(tm: Tm, saved: Tm)
    requires tm == OneClosed(2, {1})
    ensures Does(Engine(WRITTEN, [FirstPage(2)], tm, saved), Engine(ROLLED_BACK, [FirstPage(2)], tm, saved),
                 LogAbort(1))
    ensures Does(Engine(ROLLED_BACK, [FirstPage(2)], tm, saved),
                 Engine(ROLLED_BACK, [FirstPage(2)], OneClosed(2, {}), saved), SetAborted(1))
    ensures !HasCommit(ROLLED_BACK, 1)
    ensures RowVisible(Engine(ROLLED_BACK, [FirstPage(2)], OneClosed(2, {}), saved), Rid(0, 0))
  {
  }

  /** A row that is written and rolled back under that id is seen by every later snapshot. */
  lemma RolledBackRowAppears() returns (run: seq<Db>, acts: seq<Action>)
    ensures CrashRecovery.IsRun(run, acts) && |acts| > 0 && acts[|acts| - 1] == SetAborted(1)
    ensures run[|acts|].log == ROLLED_BACK && !HasCommit(ROLLED_BACK, 1) && RowVisible(run[|acts|], Rid(0, 0))
  {
    var tm, saved, page := OneClosed(2, {1}), OneClosed(1, {}), FirstPage(2);
    var last := Engine(ROLLED_BACK, [page], OneClosed(2, {}), saved);
    assert last.log == ROLLED_BACK;
    hide *;
    AddsFirstPage([BEGIN], tm, saved);
    BeginsAgain(tm, saved);
    RollsBack(tm, saved);
    run, acts := ClosedIdReturns();
    run, acts := Then(run, acts, Engine([BEGIN], [], tm, saved), LogBegin(1));
    run, acts := Then(run, acts, Engine([BEGIN], [EMPTY_PAGE], tm, saved), NewPage);
    run, acts := Then(run, acts, Engine(WRITTEN, [page], tm, saved), InsertRow(1, 0, []));
    run, acts := Then(run, acts, Engine(ROLLED_BACK, [page], tm, saved), LogAbort(1));
    run, acts := Then(run, acts, last, SetAborted(1));
  }

  /** The engine after CREATE TABLE has committed: one record, one row, and no Commit record. */
  ghost function Created(flushed: nat): Db {
    Engine([FirstInsert(1)], [FirstPage(1)], OneClosed(2, {}), NOTHING).(flushed := flushed)
  }

  ghost function CrashedThen(): Db { Crashed(Created(1), 1, [0]) }

  ghost function RedoneThen(): Db { CrashedThen().(pages := [FirstPage(1)], phase := Redoing(1, 1)) }

  lemma CreatesFirst()
    ensures Does(Engine([], [EMPTY_PAGE], FIRST, NOTHING), Engine([FirstInsert(1)], [FirstPage(1)], FIRST, NOTHING),
                 InsertRow(1, 0, []))
    ensures Does(Engine([FirstInsert(1)], [FirstPage(1)], FIRST, NOTHING), Created(0), Close(1))
    ensures Does(Created(0), Created(1), FlushLog)
    ensures |Created(1).log| == 1 && 1 in Created(1).tm.committed
  {
    InsertsFirst([], FIRST, NOTHING);
    assert [] + [FirstInsert(1)] == [FirstInsert(1)];
    ClosesFirst([FirstInsert(1)], [FirstPage(1)]);
  }

  /** An automatic transaction that writes rows without brackets in the log, as CREATE TABLE does, is reported
      committed, and a crash makes its rows disappear although all of its records were durable. */
  lemma UnbracketedRowLost() returns (run: seq<Db>, acts: seq<Action>, c: nat)
    ensures CrashRecovery.IsRun(run, acts) && c < |acts| && acts[c] == Crash(|run[c].log|, [0])
    ensures acts[|acts| - 1].Finish?
    ensures 1 in run[c].tm.committed && RowVisible(run[c], Rid(0, 0)) && !RowVisible(run[|acts|], Rid(0, 0))
  {
    hide *;
    BeginsFirst();
    AddsFirstPage([], FIRST, NOTHING);
    CreatesFirst();
    LostAgain();
    run, acts := StartRun();
    run, acts := Then(run, acts, Engine([], [], FIRST, NOTHING), BeginTxn);
    run, acts := Then(run, acts, Engine([], [EMPTY_PAGE], FIRST, NOTHING), NewPage);
    run, acts := Then(run, acts, Engine([FirstInsert(1)], [FirstPage(1)], FIRST, NOTHING), InsertRow(1, 0, []));
    run, acts := Then(run, acts, Created(0), Close(1));
    run, acts := Then(run, acts, Created(1), FlushLog);
    c := |acts|;
    run, acts := Then(run, acts, CrashedThen(), Crash(1, [0]), c);
    run, acts := Then(run, acts, RedoneThen(), RedoNext, c);
    run, acts := Then(run, acts, Finished(RedoneThen()), Finish, c);
  }

  lemma LostAgain()
    ensures RowVisible(Created(1), Rid(0, 0)) && RedoneThen().phase == Redoing(1, 1) && |RedoneThen().log| == 1
    ensures Does(Created(1), CrashedThen(), Crash(1, [0])) && Does(CrashedThen(), RedoneThen(), RedoNext)
    ensures Does(RedoneThen(), Finished(RedoneThen()), Finish) && !RowVisible(Finished(RedoneThen()), Rid(0, 0))
  {
    var c := CrashedThen();
    assert c.log == [FirstInsert(1)] && c.pages == [EMPTY_PAGE] && c.disk == [[EMPTY_PAGE]];
    RedoesFirst(c, RedoneThen());
    FinishesWithout(RedoneThen());
  }

  lemma RedoesFirst(c: Db, r: Db)
    requires c.log == [FirstInsert(1)] && c.pages == [EMPTY_PAGE] && c.disk == [[EMPTY_PAGE]]
    requires c.phase == Redoing(1, 0) && r == c.(pages := [FirstPage(1)], phase := Redoing(1, 1))
    ensures Does(c, r, RedoNext)
  {
    assert Allocated(c.pages, 0) == c.pages && Space(EMPTY_PAGE.slots) == 0;
    assert EMPTY_PAGE.slots + FirstPage(1).slots == FirstPage(1).slots;
    assert RedoInsertPage(EMPTY_PAGE, 0, Tup(1, NO_TXN, []), 1) == Ok((FirstPage(1), true));
    assert c.pages[0 := FirstPage(1)] == [FirstPage(1)];
    assert Extended(c.disk, 1) == c.disk;
  }

  lemma FinishesWithout(r: Db)
    requires r.log == [FirstInsert(1)] && r.pages == [FirstPage(1)] && r.phase == Redoing(1, 1)
    requires r.saved == NOTHING
    ensures Does(r, Finished(r), Finish) && !RowVisible(Finished(r), Rid(0, 0))
  {
    assert r.log[..1] == r.log;
    assert 1 !in Recorded(r).committed;
  }
}
