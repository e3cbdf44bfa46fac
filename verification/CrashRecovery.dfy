/** The whole storage engine as a step system: transactions write log and pages, pages reach the disk behind
    the log, a crash may strike at any point (also inside recovery), and recovery rebuilds the answers. */
module CrashRecovery {
  import opened Common
  import opened Bytes
  import opened HeapLog
  import opened Transactions

  datatype Phase = Running | Redoing(base: nat, done: nat)

  datatype Db = Db(
    log: seq<Record>,
    flushed: nat,                 // the first `flushed` records are durable
    pages: seq<HeapPage>,         // what the buffer pool answers
    disk: seq<seq<HeapPage>>,     // images written per page since the last sync, oldest first
    tm: Tm,
    saved: Tm,                    // its log part is what the CLOG file holds
    savedNext: TxnId,             // the next id that the last checkpoint wrote down
    phase: Phase)

  ghost predicate Start(s: Db) {
    var tm := Tm(1, {}, iset{}, iset{});
    s == Db([], 0, [], [], tm, tm, 0, Running)
  }

  predicate Decision(r: Record) { r.payload.Commit? || r.payload.Abort? }

  predicate HasCommit(log: seq<Record>, t: TxnId) {
    exists i :: 0 <= i < |log| && log[i].payload.Commit? && log[i].txn == t
  }

  predicate Undecided(log: seq<Record>, t: TxnId) {
    forall i :: 0 <= i < |log| && log[i].txn == t ==> !Decision(log[i])
  }

  predicate WroteDml(log: seq<Record>, t: TxnId) {
    exists i :: 0 <= i < |log| && log[i].txn == t && (log[i].payload.Insert? || log[i].payload.SetXmax?)
  }

  predicate HasBegin(log: seq<Record>, t: TxnId) {
    exists i :: 0 <= i < |log| && log[i].txn == t && log[i].payload.Begin?
  }

  /** What `analyze` classifies as in flight: begun, wrote rows, and never ended. */
  predicate InFlight(log: seq<Record>, t: TxnId) {
    HasBegin(log, t) && WroteDml(log, t) && Undecided(log, t)
  }

  function MaxTxn(log: seq<Record>): TxnId {
    if log == [] then 0 else Max(MaxTxn(log[..|log| - 1]), log[|log| - 1].txn)
  }

  function Logged(s: Db, t: TxnId, p: Payload): Db {
    s.(log := s.log + [Record(|s.log| + 1, t, p)])
  }

  /** Runs the log write and the page change as one step and stamps the page with the record's LSN. */
  function Changed(s: Db, t: TxnId, p: Payload): Db
    requires (p.Insert? || p.SetXmax?) && p.rid.page < |s.pages|
  {
    var s' := Logged(s, t, p);
    s'.(pages := s.pages[p.rid.page := Apply(s.pages[p.rid.page], s'.log[|s.log|], p.rid.page)])
  }

  function Written(disk: seq<seq<HeapPage>>, pid: PageId, image: HeapPage): seq<seq<HeapPage>>
    requires pid < |disk|
  {
    disk[pid := disk[pid] + [image]]
  }

  /** A file extended by empty pages. */
  function Extended(disk: seq<seq<HeapPage>>, count: nat): (r: seq<seq<HeapPage>>)
    ensures |r| == Max(|disk|, count) && r[..|disk|] == disk
    ensures forall i :: |disk| <= i < |r| ==> r[i] == [EMPTY_PAGE]
    decreases count - |disk|
  {
    if count <= |disk| then disk else Extended(disk + [[EMPTY_PAGE]], count)
  }

  datatype Action =
    | BeginTxn
    | LogBegin(txn: TxnId)
    | InsertRow(txn: TxnId, page: PageId, body: seq<Byte>)
    | DeleteRow(txn: TxnId, rid: Rid)
    | LogCommit(txn: TxnId)
    | SetCommitted(txn: TxnId)
    | LogAbort(txn: TxnId)
    | SetAborted(txn: TxnId)
    | Close(txn: TxnId)
    | NewPage
    | FlushLog
    | WriteBack(page: PageId)
    | SyncDisk
    | FlushStatuses
    | SaveNextId
    | Crash(durable: nat, image: seq<nat>)
    | RedoNext
    | LogInFlightAbort(txn: TxnId)
    | SaveStatuses
    | Finish

  ghost predicate Active(s: Db, t: TxnId) {
    s.phase.Running? && t in s.tm.att && Undecided(s.log, t)
  }

  /** An id is closed as committed without a log record when it logged no Begin: between statements, and at the end
      of an automatic transaction that is not bracketed in the log, be it a SELECT or a CREATE TABLE. CHECKPOINT
      flushes the statuses first and writes down the next id later. */
  ghost predicate Does(s: Db, s': Db, a: Action) {
    match a
    case BeginTxn =>
      s.phase.Running? && s' == s.(tm := Begun(s.tm))
    case LogBegin(t) =>
      Active(s, t) && s' == Logged(s, t, Begin)
    case InsertRow(t, pid, body) =>
      && Active(s, t) && pid < |s.pages|
      && var tup := Tup(t, NO_TXN, body);
         Fits(s.pages[pid], tup) && s' == Changed(s, t, Insert(Rid(pid, |s.pages[pid].slots|), tup))
    case DeleteRow(t, rid) =>
      && Active(s, t) && rid.page < |s.pages| && rid.slot < |s.pages[rid.page].slots|
      && s' == Changed(s, t, SetXmax(rid, t))
    case LogCommit(t) =>
      Active(s, t) && s' == Logged(s, t, Commit)
    case SetCommitted(t) =>
      s.phase.Running? && t in s.tm.att && HasCommit(s.log[..Min(s.flushed, |s.log|)], t)
      && s' == s.(tm := Decide(s.tm, t, true))
    case LogAbort(t) =>
      Active(s, t) && s' == Logged(s, t, Abort)
    case SetAborted(t) =>
      s.phase.Running? && t in s.tm.att && !HasCommit(s.log, t) && s' == s.(tm := Decide(s.tm, t, false))
    case Close(t) =>
      Active(s, t) && !HasBegin(s.log, t) && s' == s.(tm := Decide(s.tm, t, true))
    case NewPage =>
      s.phase.Running? && s' == s.(pages := s.pages + [EMPTY_PAGE], disk := s.disk + [[EMPTY_PAGE]])
    case FlushLog =>
      s' == s.(flushed := |s.log|)
    case WriteBack(pid) =>
      && pid < |s.pages| && pid < |s.disk|
      && s' == s.(flushed := if s.flushed >= s.pages[pid].lsn then s.flushed else |s.log|,
                  disk := Written(s.disk, pid, s.pages[pid]))
    case SyncDisk =>
      && (forall i :: 0 <= i < |s.disk| ==> s.disk[i] != [])
      && s' == s.(disk := seq(|s.disk|,
                    i requires 0 <= i < |s.disk| && s.disk[i] != [] => s.disk[i][|s.disk[i]| - 1..]))
    case FlushStatuses =>
      s.phase.Running? && s' == s.(saved := s.tm)
    case SaveNextId =>
      s.phase.Running? && s' == s.(savedNext := s.tm.next)
    case Crash(k, image) =>
      && s.flushed <= k <= |s.log| && |image| <= |s.disk|
      && (forall i :: 0 <= i < |image| ==> image[i] < |s.disk[i]|)
      && s' == Crashed(s, k, image)
    case RedoNext =>
      && s.phase.Redoing? && s.phase.done < s.phase.base <= |s.log|
      && RedoOne(s.pages, s.log[s.phase.done]).Ok?
      && var pages := RedoOne(s.pages, s.log[s.phase.done]).value.pages;
         s' == s.(pages := pages, disk := Extended(s.disk, |pages|), phase := Redoing(s.phase.base, s.phase.done + 1))
    case LogInFlightAbort(t) =>
      && s.phase.Redoing? && s.phase.done == s.phase.base <= |s.log|
      && InFlight(s.log, t) && s' == Logged(s, t, Abort)
    case SaveStatuses =>
      && AllUndone(s) && s' == s.(flushed := |s.log|, saved := Recorded(s))
    case Finish =>
      && AllUndone(s) && s' == Finished(s)
  }

  /** The largest id that a recovery starting now is sure to know of. */
  function KnownId(log: seq<Record>, flushed: nat, savedNext: TxnId): TxnId
    requires flushed <= |log|
  {
    Max(MaxTxn(log[..flushed]), savedNext)
  }

  /** Every id whose status the commit log holds is known to recovery by the durable log or by the last checkpoint. */
  ghost predicate Covered(s: Db) {
    s.flushed <= |s.log| && forall t: TxnId :: Decided(s.tm, t) ==> t <= KnownId(s.log, s.flushed, s.savedNext)
  }

  /** Redo is complete and every transaction in flight has its Abort record. */
  ghost predicate AllUndone(s: Db) {
    s.phase.Redoing? && s.phase.done == s.phase.base <= |s.log| && forall t :: !InFlight(s.log, t)
  }

  function Min(a: nat, b: nat): nat { if a < b then a else b }

  /** Memory is gone; the log keeps some prefix beyond what was flushed; every page comes back as one of the
      images written since the last sync; file extensions at the end may be lost. */
  ghost function Crashed(s: Db, k: nat, image: seq<nat>): Db
    requires k <= |s.log| && |image| <= |s.disk| && forall i :: 0 <= i < |image| ==> image[i] < |s.disk[i]|
  {
    var pages := seq(|image|, i requires 0 <= i < |image| => s.disk[i][image[i]]);
    s.(log := s.log[..k], flushed := k, pages := pages,
       disk := seq(|pages|, i requires 0 <= i < |pages| => [pages[i]]),
       tm := Tm(1, {}, s.saved.committed, s.saved.aborted), phase := Redoing(k, 0))
  }

  /** The transaction manager that start-up leaves: statuses recorded over what the CLOG file held, ids continuing
      after the largest logged one and after what the last checkpoint wrote down. */
  ghost function Recorded(s: Db): Tm
    requires s.phase.Redoing? && s.phase.base <= |s.log|
  {
    var records := s.log[..s.phase.base];
    var commits := iset t: TxnId | HasCommit(records, t);
    var flying := iset t: TxnId | InFlight(records, t);
    Tm(Max(MaxTxn(records), s.savedNext) + 1, {},
       s.saved.committed + commits - flying, s.saved.aborted - commits + flying)
  }

  /** The end of `recover`: log, statuses and pages are all flushed. */
  ghost function Finished(s: Db): Db
    requires s.phase.Redoing? && s.phase.base <= |s.log|
  {
    s.(flushed := |s.log|, tm := Recorded(s), saved := Recorded(s),
       disk := seq(|s.pages|, i requires 0 <= i < |s.pages| => [s.pages[i]]), phase := Running)
  }

  // ---- what every step keeps ----

  /** Nothing follows a transaction's Commit or Abort record. */
  ghost predicate Sealed(log: seq<Record>) {
    forall i, j :: 0 <= i < j < |log| && Decision(log[i]) ==> log[j].txn != log[i].txn
  }

  /** Every image on disk is the effect of a durable prefix of the log: the log reaches disk first. */
  ghost predicate DiskOk(log: seq<Record>, flushed: nat, disk: seq<seq<HeapPage>>) {
    forall pid, i :: 0 <= pid < |disk| && 0 <= i < |disk[pid]| ==>
      UpTo(log, 0, pid, disk[pid][i]) && disk[pid][i].lsn <= flushed
  }

  /** What the CLOG file says agrees with the log, and recovery will not hand out an id that is in it. */
  ghost predicate SavedOk(log: seq<Record>, flushed: nat, saved: Tm, savedNext: TxnId)
    requires flushed <= |log|
  {
    && (forall t: TxnId :: t in saved.committed ==> HasCommit(log[..flushed], t) || !HasBegin(log, t))
    && (forall t: TxnId :: t in saved.aborted ==> !HasCommit(log, t) && t !in saved.committed)
    && (forall t: TxnId :: Decided(saved, t) ==> t <= KnownId(log, flushed, savedNext))
  }

  ghost predicate RunningOk(s: Db)
    requires s.flushed <= |s.log|
  {
    && WellFormed(s.tm)
    && (forall i :: 0 <= i < |s.log| ==> s.log[i].txn < s.tm.next)
    && (forall t: TxnId :: t in s.tm.committed ==> HasCommit(s.log[..s.flushed], t) || !HasBegin(s.log, t))
    && (forall t: TxnId :: t in s.tm.aborted ==> !HasCommit(s.log, t))
    && (forall t: TxnId :: t in s.saved.committed ==> t in s.tm.committed)
    && (forall t: TxnId :: t in s.saved.aborted ==> t in s.tm.aborted)
  }

  ghost predicate RedoingOk(s: Db) {
    && s.phase.Redoing? && s.phase.done <= s.phase.base <= s.flushed <= |s.log|
    && AllUpTo(s.log, s.phase.done, s.pages)
    && (forall pid :: 0 <= pid < |s.pages| ==> s.pages[pid].lsn <= s.phase.base)
    && forall i :: s.phase.base <= i < |s.log| ==>
         s.log[i].payload.Abort? && InFlight(s.log[..s.phase.base], s.log[i].txn)
  }

  /** Log, pages and disk agree, whatever the statuses are. */
  ghost predicate Stored(s: Db) {
    && s.flushed <= |s.log|
    && LogOk(s.log) && Sealed(s.log)
    && |s.disk| == |s.pages|
    && (forall pid :: 0 <= pid < |s.disk| ==> s.disk[pid] != [])
    && DiskOk(s.log, s.flushed, s.disk)
    && (if s.phase.Running? then AllUpTo(s.log, |s.log|, s.pages) && s.tm.next != NO_TXN && NO_TXN !in s.tm.att
        else RedoingOk(s))
  }

  /** The statuses agree with the log. */
  ghost predicate Judged(s: Db) {
    && s.flushed <= |s.log|
    && SavedOk(s.log, s.flushed, s.saved, s.savedNext)
    && (s.phase.Running? ==> RunningOk(s))
  }

  ghost predicate Inv(s: Db) {
    Stored(s) && Judged(s)
  }

  lemma UpToExtend(log: seq<Record>, more: seq<Record>, i: nat, pid: PageId, p: HeapPage)
    requires i <= |log| && UpTo(log, i, pid, p)
    ensures UpTo(log + more, i, pid, p)
  {
    EffectOfPrefix(log, more, pid, Max(i, p.lsn));
  }

  lemma DiskExtend(log: seq<Record>, more: seq<Record>, flushed: nat, disk: seq<seq<HeapPage>>)
    requires DiskOk(log, flushed, disk)
    ensures DiskOk(log + more, flushed, disk)
  {
    forall pid, i | 0 <= pid < |disk| && 0 <= i < |disk[pid]| ensures UpTo(log + more, 0, pid, disk[pid][i]) {
      UpToExtend(log, more, 0, pid, disk[pid][i]);
    }
  }

  /** Appending a record of an undecided transaction. */
  lemma LogGrows(s: Db, t: TxnId, p: Payload)
    requires Stored(s) && t != NO_TXN && Undecided(s.log, t)
    requires Legal(Record(|s.log| + 1, t, p), Effect(s.log, Target(Record(|s.log| + 1, t, p)), |s.log|))
    ensures var s' := Logged(s, t, p);
      && LogOk(s'.log) && Sealed(s'.log) && DiskOk(s'.log, s'.flushed, s'.disk)
      && (forall pid :: Effect(s'.log, pid, |s'.log|) == Apply(Effect(s.log, pid, |s.log|), s'.log[|s.log|], pid))
  {
    var r := Record(|s.log| + 1, t, p);
    LogOkExtend(s.log, r);
    DiskExtend(s.log, [r], s.flushed, s.disk);
  }

  /** What one more record says about who committed and who began. */
  lemma OneMoreRecord(log: seq<Record>, r: Record)
    ensures forall u :: HasCommit(log + [r], u) <==> HasCommit(log, u) || (u == r.txn && r.payload.Commit?)
    ensures forall u :: HasBegin(log + [r], u) <==> HasBegin(log, u) || (u == r.txn && r.payload.Begin?)
  {
    var more := log + [r];
    assert more[|log|] == r && forall i :: 0 <= i < |log| ==> more[i] == log[i];
    forall u | HasCommit(log, u) ensures HasCommit(more, u) {
      var i :| 0 <= i < |log| && log[i].payload.Commit? && log[i].txn == u;
      assert more[i].payload.Commit?;
    }
    forall u | HasBegin(log, u) ensures HasBegin(more, u) {
      var i :| 0 <= i < |log| && log[i].txn == u && log[i].payload.Begin?;
      assert more[i].payload.Begin?;
    }
  }

  lemma CommitMono(log: seq<Record>, a: nat, b: nat)
    requires a <= b <= |log|
    ensures forall t :: HasCommit(log[..a], t) ==> HasCommit(log[..b], t)
  {
    forall t | HasCommit(log[..a], t) ensures HasCommit(log[..b], t) {
      var i :| 0 <= i < a && log[..a][i].payload.Commit? && log[..a][i].txn == t;
      assert log[..b][i] == log[..a][i];
    }
  }

  lemma BeginMono(log: seq<Record>, k: nat)
    requires k <= |log|
    ensures forall t :: HasBegin(log[..k], t) ==> HasBegin(log, t)
  {
    forall t | HasBegin(log[..k], t) ensures HasBegin(log, t) {
      var i :| 0 <= i < k && log[..k][i].txn == t && log[..k][i].payload.Begin?;
      assert log[i] == log[..k][i];
    }
  }

  // ---- log, pages and disk ----

  /** Transactions writing records that touch no page. */
  lemma AppendStored(s: Db, t: TxnId, p: Payload)
    requires Stored(s) && s.phase.Running? && (p.Begin? || p.Commit? || p.Abort?)
    requires t != NO_TXN && Undecided(s.log, t)
    ensures Stored(Logged(s, t, p))
  {
    LogGrows(s, t, p);
  }

  lemma ChangeStored(s: Db, t: TxnId, p: Payload)
    requires Stored(s) && Active(s, t) && (p.Insert? || p.SetXmax?) && p.rid.page < |s.pages|
    requires Legal(Record(|s.log| + 1, t, p), s.pages[p.rid.page])
    ensures Stored(Changed(s, t, p))
  {
    assert UpTo(s.log, |s.log|, p.rid.page, s.pages[p.rid.page]);
    LogGrows(s, t, p);
    var s' := Changed(s, t, p);
    forall pid | 0 <= pid < |s'.pages| ensures UpTo(s'.log, |s'.log|, pid, s'.pages[pid]) {
      assert UpTo(s.log, |s.log|, pid, s.pages[pid]);
    }
    assert AllUpTo(s'.log, |s'.log|, s'.pages);
  }

  lemma NewPageStored(s: Db, s': Db)
    requires Stored(s) && Does(s, s', NewPage)
    ensures Stored(s')
  {
    BeyondIsEmpty(s.log, |s.pages|, |s.log|);
  }

  /** A page on its way to disk: the log is made durable up to its LSN first. */
  lemma WriteBackStored(s: Db, s': Db, pid: PageId)
    requires Stored(s) && Does(s, s', WriteBack(pid))
    ensures Stored(s')
  {
    var i := if s.phase.Running? then |s.log| else s.phase.done;
    assert UpTo(s.log, i, pid, s.pages[pid]);
    ImageOf(s.log, i, pid, s.pages[pid]);
  }

  lemma ImageOf(log: seq<Record>, i: nat, pid: PageId, p: HeapPage)
    requires LogOk(log) && i <= |log| && UpTo(log, i, pid, p)
    ensures UpTo(log, 0, pid, p)
  {
    EffectAtLsn(log, pid, Max(i, p.lsn));
  }

  lemma CrashStored(s: Db, s': Db, k: nat, image: seq<nat>)
    requires Stored(s) && Does(s, s', Crash(k, image))
    ensures Stored(s')
  {
    LogOkPrefix(s.log, k);
    assert s.log[..k] + s.log[k..] == s.log;
    forall pid, p | UpTo(s.log, 0, pid, p) && p.lsn <= s.flushed ensures UpTo(s.log[..k], 0, pid, p) {
      EffectOfPrefix(s.log[..k], s.log[k..], pid, p.lsn);
    }
    forall pid | 0 <= pid < |s'.pages| ensures UpTo(s'.log, 0, pid, s'.pages[pid]) && s'.pages[pid].lsn <= s.flushed {
      assert s'.pages[pid] == s.disk[pid][image[pid]];
    }
  }

  lemma EmptyUpTo(log: seq<Record>, pid: PageId)
    ensures UpTo(log, 0, pid, EMPTY_PAGE) && EMPTY_PAGE.lsn == 0
  {
  }

  lemma RedoStored(s: Db, s': Db)
    requires Stored(s) && Does(s, s', RedoNext)
    ensures Stored(s')
  {
    hide Sealed;
    hide UpTo;
    hide Effect;
    hide RedoOne;
    hide Legal;
    var r := s.log[s.phase.done];
    RedoOneStep(s.log, s.phase.done, s.pages);
    assert RecordOk(s.log, s.phase.done);
    hide LogOk;
    hide RecordOk;
    forall pid | 0 <= pid < |s'.pages| ensures s'.pages[pid].lsn <= s'.phase.base {
      RedoOneLsn(s.pages, r, pid);
    }
    assert DiskOk(s'.log, s'.flushed, s'.disk) by {
      forall pid, i | 0 <= pid < |s'.disk| && 0 <= i < |s'.disk[pid]|
        ensures UpTo(s'.log, 0, pid, s'.disk[pid][i]) && s'.disk[pid][i].lsn <= s'.flushed
      {
        assert pid < |s.disk| ==> s'.disk[pid] == s.disk[pid];
        EmptyUpTo(s.log, pid);
      }
    }
    assert forall pid :: 0 <= pid < |s.disk| ==> s'.disk[pid] == s.disk[pid];
  }

  /** The Abort records that recovery adds do not change who was in flight before. */
  lemma InFlightBefore(s: Db, t: TxnId)
    requires Stored(s) && s.phase.Redoing? && InFlight(s.log, t)
    ensures InFlight(s.log[..s.phase.base], t)
  {
    var records := s.log[..s.phase.base];
    var b :| 0 <= b < |s.log| && s.log[b].txn == t && s.log[b].payload.Begin?;
    var d :| 0 <= d < |s.log| && s.log[d].txn == t && (s.log[d].payload.Insert? || s.log[d].payload.SetXmax?);
    assert b < s.phase.base && d < s.phase.base;
    assert records[b] == s.log[b] && records[d] == s.log[d];
    assert forall i :: 0 <= i < |records| ==> records[i] == s.log[i];
  }

  lemma LogAbortStored(s: Db, s': Db, t: TxnId)
    requires Stored(s) && Does(s, s', LogInFlightAbort(t))
    ensures Stored(s')
  {
    var b :| 0 <= b < |s.log| && s.log[b].txn == t && s.log[b].payload.Begin?;
    assert RecordOk(s.log, b);
    LogGrows(s, t, Abort);
    StillRedoing(s, s', t);
    hide RedoingOk;
    hide Sealed;
    hide DiskOk;
    hide LogOk;
    hide InFlight;
  }

  lemma StillRedoing(s: Db, s': Db, t: TxnId)
    requires Stored(s) && Does(s, s', LogInFlightAbort(t))
    ensures RedoingOk(s')
  {
    hide LogOk;
    hide Sealed;
    hide DiskOk;
    hide InFlight;
    hide UpTo;
    InFlightBefore(s, t);
    assert s'.log[..s.phase.base] == s.log[..s.phase.base];
    var more := [Record(|s.log| + 1, t, Abort)];
    forall pid | 0 <= pid < |s.pages| ensures UpTo(s'.log, s'.phase.done, pid, s'.pages[pid]) {
      UpToExtend(s.log, more, s.phase.done, pid, s.pages[pid]);
    }
  }

  /** After redo every page is as if each durable record had been applied once. */
  lemma RedoneIsEffect(s: Db)
    requires Stored(s) && AllUndone(s)
    ensures AllUpTo(s.log, |s.log|, s.pages)
  {
    forall pid | 0 <= pid < |s.pages| ensures UpTo(s.log, |s.log|, pid, s.pages[pid]) {
      assert UpTo(s.log, s.phase.base, pid, s.pages[pid]);
      AbortsTouchNothing(s.log, s.phase.base, |s.log|, pid);
    }
  }

  lemma {:induction false} AbortsTouchNothing(log: seq<Record>, base: nat, n: nat, pid: PageId)
    requires base <= n <= |log| && forall i :: base <= i < n ==> log[i].payload.Abort?
    ensures Effect(log, pid, n) == Effect(log, pid, base)
  {
    if base < n {
      AbortsTouchNothing(log, base, n - 1, pid);
    }
  }

  lemma FinishStored(s: Db, s': Db)
    requires Stored(s) && Does(s, s', Finish)
    ensures Stored(s')
  {
    RedoneIsEffect(s);
    forall pid | 0 <= pid < |s.pages| ensures UpTo(s.log, 0, pid, s.pages[pid]) {
      assert UpTo(s.log, |s.log|, pid, s.pages[pid]);
      ImageOf(s.log, |s.log|, pid, s.pages[pid]);
    }
  }

  lemma StepStored(s: Db, s': Db, a: Action)
    requires Stored(s) && Does(s, s', a)
    ensures Stored(s')
  {
    match a
    case BeginTxn =>
    case LogBegin(t) => AppendStored(s, t, Begin);
    case InsertRow(t, pid, body) =>
      ChangeStored(s, t, Insert(Rid(pid, |s.pages[pid].slots|), Tup(t, NO_TXN, body)));
    case DeleteRow(t, rid) => ChangeStored(s, t, SetXmax(rid, t));
    case LogCommit(t) => AppendStored(s, t, Commit);
    case SetCommitted(t) =>
    case LogAbort(t) => AppendStored(s, t, Abort);
    case SetAborted(t) =>
    case Close(t) =>
    case NewPage => NewPageStored(s, s');
    case FlushLog =>
    case WriteBack(pid) => WriteBackStored(s, s', pid);
    case SyncDisk =>
    case FlushStatuses =>
    case SaveNextId =>
    case Crash(k, image) => CrashStored(s, s', k, image);
    case RedoNext => RedoStored(s, s');
    case LogInFlightAbort(t) => LogAbortStored(s, s', t);
    case SaveStatuses =>
    case Finish => FinishStored(s, s');
  }

  // ---- statuses ----

  lemma MaxTxnBounds(log: seq<Record>)
    ensures forall i :: 0 <= i < |log| ==> log[i].txn <= MaxTxn(log)
  {
    if log != [] {
      MaxTxnBounds(log[..|log| - 1]);
    }
  }

  lemma MaxTxnAtMost(log: seq<Record>, bound: TxnId)
    requires forall i :: 0 <= i < |log| ==> log[i].txn <= bound
    ensures MaxTxn(log) <= bound
  {
  }

  lemma MaxTxnMono(log: seq<Record>, a: nat, b: nat)
    requires a <= b <= |log|
    ensures MaxTxn(log[..a]) <= MaxTxn(log[..b])
  {
    MaxTxnBounds(log[..b]);
    forall i | 0 <= i < a ensures log[..a][i].txn <= MaxTxn(log[..b]) {
      assert log[..a][i] == log[..b][i];
    }
    MaxTxnAtMost(log[..a], MaxTxn(log[..b]));
  }

  /** A record of a transaction whose status the statuses do not know yet. */
  lemma AppendJudged(s: Db, s': Db, t: TxnId, p: Payload)
    requires Judged(s) && Active(s, t) && s'.log == Logged(s, t, p).log
    requires s'.phase == s.phase && s'.tm == s.tm && s'.saved == s.saved && s'.savedNext == s.savedNext
    requires s'.flushed == s.flushed
    ensures Judged(s')
  {
    OneMoreRecord(s.log, s'.log[|s.log|]);
    assert s'.log[..s.flushed] == s.log[..s.flushed];
  }

  lemma FlushJudged(s: Db, s': Db)
    requires Judged(s) && s'.log == s.log && (s'.flushed == s.flushed || s'.flushed == |s.log|)
    requires s'.phase == s.phase && s'.tm == s.tm && s'.saved == s.saved && s'.savedNext == s.savedNext
    ensures Judged(s')
  {
    CommitMono(s.log, s.flushed, s'.flushed);
    MaxTxnMono(s.log, s.flushed, s'.flushed);
  }

  lemma CrashJudged(s: Db, s': Db, k: nat, image: seq<nat>)
    requires Judged(s) && Does(s, s', Crash(k, image))
    ensures Judged(s')
  {
    assert s.log[..k][..k] == s.log[..k];
    CommitMono(s.log, s.flushed, k);
    CommitMono(s.log, k, |s.log|);
    BeginMono(s.log, k);
    MaxTxnMono(s.log, s.flushed, k);
    assert s.log[..|s.log|] == s.log;
  }

  lemma LogAbortJudged(s: Db, s': Db, t: TxnId)
    requires Judged(s) && Does(s, s', LogInFlightAbort(t))
    ensures Judged(s')
  {
    OneMoreRecord(s.log, s'.log[|s.log|]);
    assert s'.log[..s.flushed] == s.log[..s.flushed];
  }

  lemma HasCommitSplit(log: seq<Record>, base: nat, t: TxnId)
    requires base <= |log| && forall i :: base <= i < |log| ==> log[i].payload.Abort?
    ensures HasCommit(log, t) <==> HasCommit(log[..base], t)
  {
    CommitMono(log, base, |log|);
    assert log[..|log|] == log;
    if HasCommit(log, t) {
      var i :| 0 <= i < |log| && log[i].payload.Commit? && log[i].txn == t;
      assert log[..base][i] == log[i];
    }
  }

  /** Who counts as committed once recovery has read this log and this CLOG file. */
  ghost function Kept(log: seq<Record>, saved: Tm): iset<TxnId> {
    iset t: TxnId | HasCommit(log, t) || t in saved.committed
  }

  lemma FlyingUndecided(log: seq<Record>, base: nat, t: TxnId)
    requires base <= |log| && InFlight(log[..base], t)
    requires forall i :: base <= i < |log| ==> log[i].payload.Abort?
    ensures !HasCommit(log, t) && HasBegin(log, t) && t <= MaxTxn(log[..base])
  {
    HasCommitSplit(log, base, t);
    BeginMono(log, base);
    InFlightBounded(log[..base], t);
  }

  /** The statuses recovery records are those of the log it read and of the CLOG file. */
  lemma RecordedIsLogged(s: Db)
    requires Inv(s) && s.phase.Redoing?
    ensures Recorded(s).committed == Kept(s.log, s.saved)
    ensures forall t: TxnId :: t in Recorded(s).aborted ==> !HasCommit(s.log, t)
    ensures WellFormed(Recorded(s)) && SavedOk(s.log, |s.log|, Recorded(s), s.savedNext)
    ensures forall i :: 0 <= i < |s.log| ==> s.log[i].txn < Recorded(s).next
  {
    var records := s.log[..s.phase.base];
    assert s.log[..|s.log|] == s.log;
    CommitMono(s.log, s.flushed, |s.log|);
    forall t: TxnId ensures HasCommit(s.log, t) <==> HasCommit(records, t) {
      HasCommitSplit(s.log, s.phase.base, t);
    }
    forall t: TxnId | InFlight(records, t) ensures !HasCommit(s.log, t) && HasBegin(s.log, t) {
      FlyingUndecided(s.log, s.phase.base, t);
    }
    RecordedBounded(s);
    hide InFlight;
    hide HasCommit;
    hide HasBegin;
    hide MaxTxn;
    hide Stored;
    assert forall t: TxnId :: t in s.saved.committed ==> !InFlight(records, t);
    var tm := Recorded(s);
    forall t: TxnId | t in tm.committed || t in tm.aborted ensures t < tm.next {
      assert Decided(tm, t);
    }
  }

  /** Ids that recovery finds in the log or in the CLOG file are below the next id it sets. */
  lemma RecordedBounded(s: Db)
    requires Inv(s) && s.phase.Redoing?
    ensures forall t: TxnId :: Decided(Recorded(s), t) ==> t < Recorded(s).next
    ensures forall t: TxnId :: Decided(Recorded(s), t) ==> t <= KnownId(s.log, |s.log|, s.savedNext)
    ensures forall i :: 0 <= i < |s.log| ==> s.log[i].txn < Recorded(s).next
  {
    var records := s.log[..s.phase.base];
    forall i | 0 <= i < |s.log| ensures s.log[i].txn <= MaxTxn(records) {
      TxnInRecords(s, i);
    }
    assert s.log[..|s.log|] == s.log;
    MaxTxnAtMost(s.log[..s.flushed], MaxTxn(records));
    MaxTxnMono(s.log, s.phase.base, |s.log|);
    forall t: TxnId | Decided(Recorded(s), t) ensures t <= Max(MaxTxn(records), s.savedNext) {
      assert HasCommit(records, t) || InFlight(records, t) || Decided(s.saved, t);
      MaxTxnBounds(records);
      if InFlight(records, t) {
        InFlightBounded(records, t);
      }
    }
  }

  lemma TxnInRecords(s: Db, i: nat)
    requires Stored(s) && s.phase.Redoing? && i < |s.log|
    ensures s.log[i].txn <= MaxTxn(s.log[..s.phase.base])
  {
    hide InFlight;
    hide LogOk;
    hide Sealed;
    hide DiskOk;
    var records := s.log[..s.phase.base];
    if i < s.phase.base {
      MaxTxnBounds(records);
      assert records[i] == s.log[i];
    } else {
      InFlightBounded(records, s.log[i].txn);
    }
  }

  lemma InFlightBounded(records: seq<Record>, t: TxnId)
    requires InFlight(records, t)
    ensures t <= MaxTxn(records)
  {
    assert HasBegin(records, t);
    MaxTxnBounds(records);
  }

  /** Steps of the transaction manager and of pages. */
  lemma ManagerJudged(s: Db, s': Db, a: Action)
    requires Judged(s) && s.phase.Running? && Does(s, s', a) && (a.FlushStatuses? ==> Covered(s))
    requires a.BeginTxn? || a.SetCommitted? || a.SetAborted? || a.Close? || a.FlushStatuses? || a.SaveNextId?
    ensures Judged(s')
  {
    hide MaxTxn;
    hide HasCommit;
    hide HasBegin;
  }

  lemma PagesJudged(s: Db, s': Db)
    requires Judged(s) && s'.log == s.log && s'.flushed == s.flushed && s'.tm == s.tm
    requires s'.saved == s.saved && s'.savedNext == s.savedNext && s'.phase.Running? == s.phase.Running?
    ensures Judged(s')
  {
  }

  lemma RecoveryJudged(s: Db, s': Db, a: Action)
    requires Inv(s) && Does(s, s', a) && (a.SaveStatuses? || a.Finish?)
    ensures Judged(s')
  {
    RecordedIsLogged(s);
    assert s.log[..|s.log|] == s.log;
    hide Stored;
    hide HasCommit;
    hide HasBegin;
    hide MaxTxn;
    hide Recorded;
  }

  /** CHECKPOINT may flush the statuses when every id in them is covered. */
  lemma StepJudged(s: Db, s': Db, a: Action)
    requires Inv(s) && Does(s, s', a) && (a.FlushStatuses? ==> Covered(s))
    ensures Judged(s')
  {
    hide Stored;
    hide Judged;
    hide Covered;
    match a
    case LogBegin(t) => AppendJudged(s, s', t, Begin);
    case InsertRow(t, pid, body) =>
      AppendJudged(s, s', t, Insert(Rid(pid, |s.pages[pid].slots|), Tup(t, NO_TXN, body)));
    case DeleteRow(t, rid) => AppendJudged(s, s', t, SetXmax(rid, t));
    case LogCommit(t) => AppendJudged(s, s', t, Commit);
    case LogAbort(t) => AppendJudged(s, s', t, Abort);
    case FlushLog => FlushJudged(s, s');
    case WriteBack(pid) => FlushJudged(s, s');
    case Crash(k, image) => CrashJudged(s, s', k, image);
    case LogInFlightAbort(t) => LogAbortJudged(s, s', t);
    case SaveStatuses => RecoveryJudged(s, s', a);
    case Finish => RecoveryJudged(s, s', a);
    case NewPage => PagesJudged(s, s');
    case SyncDisk => PagesJudged(s, s');
    case RedoNext => PagesJudged(s, s');
    case _ => ManagerJudged(s, s', a);
  }

  lemma StepKeeps(s: Db, s': Db, a: Action)
    requires Inv(s) && Does(s, s', a) && (a.FlushStatuses? ==> Covered(s))
    ensures Inv(s')
  {
    StepStored(s, s', a);
    StepJudged(s, s', a);
  }

  // ---- runs ----

  ghost predicate IsRun(run: seq<Db>, acts: seq<Action>) {
    && |run| == |acts| + 1
    && Start(run[0])
    && forall i :: 0 <= i < |acts| ==> Does(run[i], run[i + 1], acts[i])
  }

  lemma StartInv(s: Db)
    requires Start(s)
    ensures Inv(s)
  {
  }

  lemma {:induction false} RunStored(run: seq<Db>, acts: seq<Action>, n: nat)
    requires IsRun(run, acts) && n < |run|
    ensures Stored(run[n])
  {
    hide Does;
    StartInv(run[0]);
    hide Stored;
    if n > 0 {
      RunStored(run, acts, n - 1);
      StepStored(run[n - 1], run[n], acts[n - 1]);
    }
  }

  /** Every flush of the statuses happened when they were covered. */
  ghost predicate SafeFlushes(run: seq<Db>, acts: seq<Action>) {
    |acts| < |run| && forall i :: 0 <= i < |acts| && acts[i].FlushStatuses? ==> Covered(run[i])
  }

  lemma {:induction false} RunSafe(run: seq<Db>, acts: seq<Action>, n: nat)
    requires IsRun(run, acts) && SafeFlushes(run, acts) && n < |run|
    ensures Inv(run[n])
  {
    hide Does;
    hide Inv;
    hide Covered;
    StartInv(run[0]);
    if n > 0 {
      RunSafe(run, acts, n - 1);
      StepKeeps(run[n - 1], run[n], acts[n - 1]);
    }
  }

  /** Log before page, in every reachable state: no image on disk is newer than the durable log. */
  lemma LogBeforePage(run: seq<Db>, acts: seq<Action>, n: nat, pid: PageId, i: nat)
    requires IsRun(run, acts) && n < |run| && pid < |run[n].disk| && i < |run[n].disk[pid]|
    ensures run[n].disk[pid][i].lsn <= run[n].flushed <= |run[n].log|
    ensures run[n].disk[pid][i] == Effect(run[n].log, pid, run[n].disk[pid][i].lsn)
  {
    RunStored(run, acts, n);
  }

  /** Redo of the next record never fails, whatever crashed before. */
  lemma RedoNeverFails(run: seq<Db>, acts: seq<Action>, n: nat)
    requires IsRun(run, acts) && n < |run|
    requires run[n].phase.Redoing? && run[n].phase.done < run[n].phase.base
    ensures run[n].phase.base <= |run[n].log|
    ensures RedoOne(run[n].pages, run[n].log[run[n].phase.done]).Ok?
  {
    RunStored(run, acts, n);
    RedoOneStep(run[n].log, run[n].phase.done, run[n].pages);
  }

  /** What the next transaction's snapshot says about a row. */
  ghost predicate FreshlyVisible(pages: seq<HeapPage>, tm: Tm, rid: Rid) {
    && rid.page < |pages| && rid.slot < |pages[rid.page].slots|
    && var t := pages[rid.page].slots[rid.slot];
       Sees(Begun(tm), TakeSnapshot(Begun(tm), tm.next), t.xmin, t.xmax)
  }

  ghost predicate RowVisible(s: Db, rid: Rid) {
    FreshlyVisible(s.pages, s.tm, rid)
  }

  /** What a log says about a row, given who counts as committed: its creator does and its last deleter does not. */
  ghost predicate RowSurvives(log: seq<Record>, kept: iset<TxnId>, rid: Rid) {
    exists i :: 0 <= i < |log| && InsertedAt(log, i, rid) && log[i].txn in kept &&
      (LastXmax(log, rid, |log|) == NO_TXN || LastXmax(log, rid, |log|) !in kept)
  }

  lemma {:induction false} LastXmaxBounds(log: seq<Record>, rid: Rid, n: nat)
    requires LogOk(log) && n <= |log|
    ensures var x := LastXmax(log, rid, n); x == NO_TXN || exists i :: 0 <= i < n && log[i].txn == x
  {
    if n > 0 {
      LastXmaxBounds(log, rid, n - 1);
      assert RecordOk(log, n - 1);
    }
  }

  /** A page store that reflects the whole log answers every row as the log does. */
  lemma AnswersAsLogged(log: seq<Record>, pages: seq<HeapPage>, tm: Tm, rid: Rid)
    requires LogOk(log) && AllUpTo(log, |log|, pages) && tm.att == {}
    requires forall i :: 0 <= i < |log| ==> log[i].txn < tm.next
    ensures FreshlyVisible(pages, tm, rid) <==> RowSurvives(log, tm.committed, rid)
    ensures forall i :: 0 <= i < |log| && InsertedAt(log, i, rid) ==>
      && rid.page < |pages| && rid.slot < |pages[rid.page].slots|
      && pages[rid.page].slots[rid.slot] == log[i].payload.tup.(xmax := LastXmax(log, rid, |log|))
  {
    SlotOrigin(log, rid, |log|);
    LastXmaxBounds(log, rid, |log|);
    if rid.page < |pages| {
      assert UpTo(log, |log|, rid.page, pages[rid.page]);
      EffectAtLsn(log, rid.page, |log|);
    } else {
      BeyondIsEmpty(log, |pages|, |log|);
    }
    forall i | 0 <= i < |log| && InsertedAt(log, i, rid)
      ensures FreshlyVisible(pages, tm, rid) <==>
        (log[i].txn in tm.committed &&
          (LastXmax(log, rid, |log|) == NO_TXN || LastXmax(log, rid, |log|) !in tm.committed))
    {
      assert RecordOk(log, i);
      var t := pages[rid.page].slots[rid.slot];
      assert t.xmin == log[i].txn && t.xmax == LastXmax(log, rid, |log|);
    }
  }

  lemma RecoveredRows(s: Db, s': Db, rid: Rid)
    requires Inv(s) && Does(s, s', Finish)
    ensures RowVisible(s', rid) <==> RowSurvives(s.log, Kept(s.log, s.saved), rid)
  {
    RedoneIsEffect(s);
    RecordedIsLogged(s);
    AnswersAsLogged(s.log, s'.pages, s'.tm, rid);
  }

  /** Recovery appends only Abort records, which decide nothing about any row. */
  lemma AbortsDoNotMatter(log: seq<Record>, base: nat, kept: iset<TxnId>, rid: Rid)
    requires base <= |log| && forall i :: base <= i < |log| ==> log[i].payload.Abort?
    ensures RowSurvives(log, kept, rid) <==> RowSurvives(log[..base], kept, rid)
  {
    var short := log[..base];
    XmaxSplit(log, base, |log|, rid);
    assert forall i :: 0 <= i < base ==> short[i] == log[i];
    if RowSurvives(log, kept, rid) {
      var i :| 0 <= i < |log| && InsertedAt(log, i, rid) && log[i].txn in kept;
      assert InsertedAt(short, i, rid);
    }
    if RowSurvives(short, kept, rid) {
      var i :| 0 <= i < |short| && InsertedAt(short, i, rid) && short[i].txn in kept;
      assert InsertedAt(log, i, rid);
    }
  }

  lemma {:induction false} XmaxSplit(log: seq<Record>, base: nat, n: nat, rid: Rid)
    requires n <= |log| && base <= |log| && forall i :: base <= i < |log| ==> log[i].payload.Abort?
    ensures LastXmax(log, rid, n) == LastXmax(log[..base], rid, Min(n, base))
  {
    if n > 0 {
      XmaxSplit(log, base, n - 1, rid);
    }
  }

  /** While one recovery runs, the records it read stay the ones that survived the crash, and so do the ids that
      count as committed. */
  lemma {:induction false} DurableStays(run: seq<Db>, acts: seq<Action>, c: nat, n: nat)
    requires IsRun(run, acts) && SafeFlushes(run, acts) && c < n < |run| && acts[c].Crash?
    requires forall m :: c < m < n ==> !acts[m].Crash? && !acts[m].Finish?
    ensures acts[c].durable <= |run[c].log| && Survived(run[n], run[c].log[..acts[c].durable])
    ensures Kept(run[n].log, run[n].saved) == Kept(run[c].log[..acts[c].durable], run[c].saved)
  {
    hide Kept;
    hide Inv;
    hide Does;
    assert Does(run[n - 1], run[n], acts[n - 1]);
    if n > c + 1 {
      DurableStays(run, acts, c, n - 1);
      RunSafe(run, acts, n - 1);
      KeptStays(run[n - 1], run[n], acts[n - 1]);
      StillLogged(run[n - 1], run[n], acts[n - 1], run[c].log[..acts[c].durable]);
    } else {
      JustCrashed(run[c], run[n], acts[c]);
    }
  }

  /** Recovery is under way, and these are the records it read. */
  ghost predicate Survived(s: Db, records: seq<Record>) {
    s.phase.Redoing? && s.phase.base == |records| <= |s.log| && s.log[..|records|] == records
  }

  lemma JustCrashed(s: Db, s': Db, a: Action)
    requires Does(s, s', a) && a.Crash?
    ensures a.durable <= |s.log| && Survived(s', s.log[..a.durable])
    ensures s'.log == s.log[..a.durable] && s'.saved.committed == s.saved.committed
    ensures Kept(s'.log, s'.saved) == Kept(s.log[..a.durable], s.saved)
  {
  }

  lemma StillLogged(s: Db, s': Db, a: Action, records: seq<Record>)
    requires Does(s, s', a) && !a.Crash? && !a.Finish? && Survived(s, records)
    ensures Survived(s', records)
  {
  }

  /** No step of recovery, but for a crash, changes who counts as committed. */
  lemma KeptStays(s: Db, s': Db, a: Action)
    requires Inv(s) && s.phase.Redoing? && Does(s, s', a) && !a.Crash?
    ensures Kept(s'.log, s'.saved) == Kept(s.log, s.saved)
  {
    match a
    case LogInFlightAbort(t) => OneMoreRecord(s.log, s'.log[|s.log|]);
    case SaveStatuses => RecordedIsLogged(s);
    case Finish => RecordedIsLogged(s);
    case _ =>
  }

  /** Crash safety. After any run cut by a crash anywhere, once recovery finishes a fresh snapshot sees exactly the
      rows whose creator counts as committed and whose last deleter does not, by the log and the CLOG file that
      survived; and every transaction that was reported committed does count if it logged its Begin. */
  lemma CrashSafety(run: seq<Db>, acts: seq<Action>, c: nat, n: nat, rid: Rid)
    requires IsRun(run, acts) && SafeFlushes(run, acts)
    requires c < n < |acts| && acts[c].Crash? && acts[n].Finish?
    requires forall m :: c < m < n ==> !acts[m].Crash? && !acts[m].Finish?
    ensures acts[c].durable <= |run[c].log|
    ensures var survived := run[c].log[..acts[c].durable];
      var kept := Kept(survived, run[c].saved);
      && (RowVisible(run[n + 1], rid) <==> RowSurvives(survived, kept, rid))
      && (forall t: TxnId :: Status(run[n + 1].tm, t) == if t in kept then Committed else Aborted)
      && (forall t: TxnId :: run[c].phase.Running? && t in run[c].tm.committed && HasBegin(run[c].log, t) ==>
            HasCommit(survived, t))
  {
    hide Inv;
    hide Does;
    hide Kept;
    hide RowSurvives;
    hide RowVisible;
    RunSafe(run, acts, c);
    RunSafe(run, acts, n);
    DurableStays(run, acts, c, n);
    RecoveredAnswers(run[n], run[n + 1], run[c].log[..acts[c].durable], rid);
    assert Does(run[c], run[c + 1], acts[c]) && Does(run[n], run[n + 1], acts[n]);
    ReportedSurvive(run[c], run[c + 1], acts[c]);
  }

  /** The end of a recovery, in terms of the records it read. */
  lemma RecoveredAnswers(s: Db, s': Db, survived: seq<Record>, rid: Rid)
    requires Inv(s) && Does(s, s', Finish) && Survived(s, survived)
    ensures RowVisible(s', rid) <==> RowSurvives(survived, Kept(s.log, s.saved), rid)
    ensures forall t: TxnId :: Status(s'.tm, t) == if t in Kept(s.log, s.saved) then Committed else Aborted
  {
    RecoveredRows(s, s', rid);
    RecordedIsLogged(s);
    AbortsDoNotMatter(s.log, s.phase.base, Kept(s.log, s.saved), rid);
  }

  lemma ReportedSurvive(s: Db, s': Db, a: Action)
    requires Inv(s) && Does(s, s', a) && a.Crash?
    ensures a.durable <= |s.log|
    ensures forall t: TxnId :: s.phase.Running? && t in s.tm.committed && HasBegin(s.log, t) ==>
      HasCommit(s.log[..a.durable], t)
  {
    CommitMono(s.log, s.flushed, a.durable);
  }

  predicate RecoveryOnly(a: Action) {
    || a.Crash? || a.RedoNext? || a.LogInFlightAbort? || a.SaveStatuses? || a.Finish?
    || a.FlushLog? || a.WriteBack? || a.SyncDisk?
  }

  /** Once recovery has finished, crashing and recovering leaves the log alone, and who counts as committed. */
  lemma {:induction false} RecoveredLogStays(run: seq<Db>, acts: seq<Action>, n: nat, m: nat)
    requires IsRun(run, acts) && SafeFlushes(run, acts) && n < m < |run| && acts[n].Finish?
    requires forall k :: n < k < m ==> RecoveryOnly(acts[k])
    ensures Settled(run[m], run[n].log, Kept(run[n].log, run[n].saved))
  {
    hide Kept;
    hide Inv;
    hide Does;
    hide Settled;
    RunSafe(run, acts, m - 1);
    assert Does(run[m - 1], run[m], acts[m - 1]);
    if m > n + 1 {
      RecoveredLogStays(run, acts, n, m - 1);
      SettledStays(run[m - 1], run[m], acts[m - 1], run[n].log, Kept(run[n].log, run[n].saved));
    } else {
      JustFinished(run[n], run[m]);
    }
  }

  /** A recovery has run to its end on this log. */
  ghost predicate Settled(s: Db, log: seq<Record>, kept: iset<TxnId>) {
    s.log == log && s.flushed == |log| && (forall t :: !InFlight(log, t)) && Kept(s.log, s.saved) == kept
  }

  lemma JustFinished(s: Db, s': Db)
    requires Inv(s) && Does(s, s', Finish)
    ensures Settled(s', s.log, Kept(s.log, s.saved))
  {
    KeptStays(s, s', Finish);
  }

  lemma SettledStays(s: Db, s': Db, a: Action, log: seq<Record>, kept: iset<TxnId>)
    requires Inv(s) && Does(s, s', a) && RecoveryOnly(a) && Settled(s, log, kept)
    ensures Settled(s', log, kept)
  {
    hide InFlight;
    if a.Crash? {
      assert s.log[..|s.log|] == s.log;
      JustCrashed(s, s', a);
    } else if s.phase.Redoing? {
      KeptStays(s, s', a);
    }
  }

  /** Recovering again, any number of times and interrupted anywhere, changes no answer. */
  lemma RecoverAgain(run: seq<Db>, acts: seq<Action>, n: nat, m: nat, rid: Rid)
    requires IsRun(run, acts) && SafeFlushes(run, acts) && n < m < |acts| && acts[n].Finish? && acts[m].Finish?
    requires forall k :: n < k < m ==> RecoveryOnly(acts[k])
    ensures RowVisible(run[m + 1], rid) <==> RowVisible(run[n + 1], rid)
  {
    RunSafe(run, acts, n);
    RunSafe(run, acts, m);
    RecoveredLogStays(run, acts, n, m);
    RecoveredRows(run[n], run[n + 1], rid);
    RecoveredRows(run[m], run[m + 1], rid);
  }
}
