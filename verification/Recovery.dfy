/** The recovery driver itself: analyze, redo, undo and the recording of statuses, on mutable pages and log. */
module Recovery {
  import opened Common
  import opened CommitLog
  import opened HeapLog
  import opened CrashRecovery
  import T = Transactions

  datatype Analysis = Analysis(
    committed: set<TxnId>, uncommitted: set<TxnId>, maxTxn: TxnId)

  /** One pass over the records, classifying each transaction. */
  method Analyze(records: seq<Record>) returns (a: Analysis)
    ensures forall t :: t in a.committed <==> HasCommit(records, t)
    ensures Sealed(records) ==> forall t :: t in a.uncommitted <==> InFlight(records, t)
    ensures a.maxTxn == MaxTxn(records)
  {
    hide MaxTxn;
    hide HasCommit;
    hide WroteDml;
    NothingSeen();
    var active: set<TxnId>, committed: set<TxnId>, wrote: set<TxnId> := {}, {}, {};
    var maxTxn := 0;
    var i := 0;
    while i < |records|
      invariant 0 <= i <= |records|
      invariant forall t :: t in committed <==> HasCommit(records[..i], t)
      invariant forall t :: t in wrote <==> WroteDml(records[..i], t)
      invariant Sealed(records) ==>
        forall t :: t in active <==> HasBegin(records[..i], t) && Undecided(records[..i], t)
      invariant maxTxn == MaxTxn(records[..i])
    {
      var r := records[i];
      ghost var before, after := records[..i], records[..i + 1];
      assert after == before + [r];
      SeenOneMore(before, r);
      maxTxn := Max(maxTxn, r.txn);
      match r.payload {
        case Begin => active := active + {r.txn};
        case Commit =>
          active := active - {r.txn};
          committed := committed + {r.txn};
        case Abort => active := active - {r.txn};
        case Insert(_, _) => wrote := wrote + {r.txn};
        case SetXmax(_, _) => wrote := wrote + {r.txn};
      }
      if Sealed(records) && r.payload.Begin? {
        assert forall j :: 0 <= j < i && before[j].txn == r.txn ==> !Decision(records[j]);
      }
      i := i + 1;
    }
    assert records[..i] == records;
    a := Analysis(committed, active * wrote, maxTxn);
  }

  lemma NothingSeen()
    ensures MaxTxn([]) == 0 && forall t: TxnId :: !HasCommit([], t) && !WroteDml([], t)
  {
  }

  lemma SeenOneMore(log: seq<Record>, r: Record)
    ensures forall t :: HasCommit(log + [r], t) <==> HasCommit(log, t) || (r.payload.Commit? && r.txn == t)
    ensures forall t :: HasBegin(log + [r], t) <==> HasBegin(log, t) || (r.payload.Begin? && r.txn == t)
    ensures forall t :: WroteDml(log + [r], t) <==>
      WroteDml(log, t) || ((r.payload.Insert? || r.payload.SetXmax?) && r.txn == t)
    ensures forall t :: Undecided(log + [r], t) <==> Undecided(log, t) && !(Decision(r) && r.txn == t)
    ensures MaxTxn(log + [r]) == Max(MaxTxn(log), r.txn)
  {
    var more := log + [r];
    assert more[..|log|] == log && more[|log|] == r;
    assert forall i :: 0 <= i < |log| ==> more[i] == log[i];
    forall t | HasCommit(log, t) ensures HasCommit(more, t) {
      var i :| 0 <= i < |log| && log[i].payload.Commit? && log[i].txn == t;
      assert more[i].payload.Commit?;
    }
    forall t | HasBegin(log, t) ensures HasBegin(more, t) {
      var i :| 0 <= i < |log| && log[i].txn == t && log[i].payload.Begin?;
      assert more[i].payload.Begin?;
    }
    forall t | WroteDml(log, t) ensures WroteDml(more, t) {
      var i :| 0 <= i < |log| && log[i].txn == t && (log[i].payload.Insert? || log[i].payload.SetXmax?);
      assert more[i].txn == t;
    }
  }

  class Driver {
    var pages: seq<HeapPage>
    var log: seq<Record>
    var flushed: nat
    const clog: Clog
    var nextTxnId: TxnId

    /** The next id that the last checkpoint wrote down; 0 without one. */
    const savedNext: TxnId

    constructor (records: seq<Record>, images: seq<HeapPage>, statuses: Clog, savedNext: TxnId)
      ensures pages == images && log == records && flushed == |records| && clog == statuses
      ensures this.savedNext == savedNext && nextTxnId == Max(savedNext, 1)
    {
      pages, log, flushed, clog, this.savedNext := images, records, |records|, statuses, savedNext;
      nextTxnId := Max(savedNext, 1);
    }

    ghost function Tm(): T.Tm
      reads this`nextTxnId, clog
    {
      T.Tm(nextTxnId, {}, iset t: TxnId | clog.View(t) == Committed, iset t: TxnId | clog.View(t) == Aborted)
    }

    /** Redo in place; on success the pages and the count are those of the specification. */
    method Redo(records: seq<Record>) returns (count: Result<nat>)
      modifies this`pages
      ensures match RedoFrom(old(pages), records)
        case Ok(r) => count == Ok(r.applied) && pages == r.pages
        case Err => count == Err
    {
      var n := 0;
      var i := 0;
      while i < |records|
        invariant 0 <= i <= |records|
        invariant RedoFrom(old(pages), records[..i]) == Ok(Redone(pages, n))
      {
        assert records[..i + 1][..i] == records[..i];
        var applied := RedoRecord(records[i]);
        if applied.Err? {
          PrefixFails(old(pages), records, i + 1);
          return Err;
        }
        n := n + applied.value;
        i := i + 1;
      }
      assert records[..i] == records;
      count := Ok(n);
    }

    method RedoRecord(r: Record) returns (applied: Result<nat>)
      modifies this`pages
      ensures match RedoOne(old(pages), r)
        case Ok(d) => applied == Ok(d.applied) && pages == d.pages
        case Err => applied == Err
    {
      match r.payload {
        case Insert(rid, tup) =>
          EnsurePageAllocated(rid.page);
          var p := pages[rid.page];
          if p.lsn >= r.lsn {
            return Ok(0);
          }
          if rid.slot == |p.slots| {
            if !Fits(p, tup) {
              return Err;
            }
            p := p.(slots := p.slots + [tup]);
          } else if rid.slot > |p.slots| {
            return Err;
          }
          pages := pages[rid.page := p.(lsn := r.lsn)];
          return Ok(1);
        case SetXmax(rid, xmax) =>
          if |pages| <= rid.page {
            return Ok(0);
          }
          var p := pages[rid.page];
          if p.lsn >= r.lsn {
            return Ok(0);
          }
          if rid.slot >= |p.slots| {
            return Err;
          }
          p := p.(slots := p.slots[rid.slot := p.slots[rid.slot].(xmax := xmax)]);
          pages := pages[rid.page := p.(lsn := r.lsn)];
          return Ok(1);
        case _ => return Ok(0);
      }
    }

    method EnsurePageAllocated(pid: PageId)
      modifies this`pages
      ensures pages == Allocated(old(pages), pid)
    {
      while |pages| <= pid
        invariant Allocated(pages, pid) == Allocated(old(pages), pid)
        decreases pid - |pages|
      {
        pages := pages + [EMPTY_PAGE];
      }
    }

    /** Appends one Abort record per transaction in flight; no page is reverted. */
    method Undo(a: Analysis)
      modifies this`log, this`flushed
      ensures |log| == |old(log)| + |a.uncommitted| && log[..|old(log)|] == old(log) && flushed == |log|
      ensures forall i :: |old(log)| <= i < |log| ==>
        log[i].payload == Abort && log[i].txn in a.uncommitted && log[i].lsn == i + 1
      ensures forall t :: t in a.uncommitted ==> exists i :: |old(log)| <= i < |log| && log[i].txn == t
    {
      var rest := a.uncommitted;
      while rest != {}
        invariant rest <= a.uncommitted && |old(log)| <= |log| && log[..|old(log)|] == old(log)
        invariant |log| == |old(log)| + |a.uncommitted| - |rest|
        invariant forall i :: |old(log)| <= i < |log| ==>
          log[i].payload == Abort && log[i].txn in a.uncommitted && log[i].lsn == i + 1
        invariant forall t :: t in a.uncommitted && t !in rest ==>
          exists i :: |old(log)| <= i < |log| && log[i].txn == t
        decreases |rest|
      {
        var t :| t in rest;
        ghost var before := log;
        log := log + [Record(|log| + 1, t, Abort)];
        assert forall i :: 0 <= i < |before| ==> log[i] == before[i];
        assert log[|before|].txn == t;
        rest := rest - {t};
      }
      flushed := |log|;
    }

    method RecordStatuses(ts: set<TxnId>, status: TxnStatus)
      requires clog.Valid()
      modifies clog
      ensures clog.Valid()
      ensures forall u :: clog.View(u) == if u in ts then status else old(clog.View(u))
    {
      var rest := ts;
      while rest != {}
        invariant rest <= ts && clog.Valid()
        invariant forall u :: clog.View(u) == if u in ts - rest then status else old(clog.View(u))
        decreases |rest|
      {
        var t: TxnId :| t in rest;
        clog.Set(t, status);
        rest := rest - {t};
      }
    }

    /** `recover`, redoing from the start of the log, and the setting of the next id after it: it succeeds on
        whatever a crash left, afterwards a fresh snapshot answers every row as the durable log and the CLOG file
        do, and no id in either is handed out again. */
    method Recover() returns (redone: Result<nat>)
      requires LogOk(log) && Sealed(log) && AllUpTo(log, 0, pages)
      requires clog.Valid() && SavedOk(log, |log|, Tm(), savedNext)
      modifies this, clog
      ensures redone.Ok? && clog.Valid()
      ensures |old(log)| <= |log| && log[..|old(log)|] == old(log)
      ensures Tm().committed == old(Kept(log, Tm()))
      ensures forall rid :: FreshlyVisible(pages, Tm(), rid) <==> RowSurvives(old(log), old(Kept(log, Tm())), rid)
      ensures T.WellFormed(Tm()) && forall i :: 0 <= i < |log| ==> log[i].txn < nextTxnId
      ensures forall t :: FileStatus(clog.file, t) == clog.View(t)
    {
      hide Sealed;
      hide SavedOk;
      hide RowSurvives;
      hide FreshlyVisible;
      hide MaxTxn;
      hide HasCommit;
      hide InFlight;
      hide T.WellFormed;
      hide LogOk;
      hide Kept;
      hide AllUpTo;
      hide RedoFrom;
      var a := Analyze(log);
      RedoConverges(log, |log|, pages);
      assert log[..|log|] == log;
      redone := Redo(log);
      ghost var records, before := log, Tm();
      Undo(a);
      RecordStatuses(a.committed, Committed);
      RecordStatuses(a.uncommitted, Aborted);
      clog.Flush();
      nextTxnId := Max(a.maxTxn, savedNext) + 1;
      MaxTxnBounds(records);
      StatusesKept(records, before, savedNext, a, Tm());
      forall rid ensures FreshlyVisible(pages, Tm(), rid) <==> RowSurvives(records, Tm().committed, rid) {
        AnswersAsLogged(records, pages, Tm(), rid);
      }
    }
  }

  /** The statuses after those of the log have been recorded over those of the file. */
  lemma StatusesKept(records: seq<Record>, before: T.Tm, savedNext: TxnId, a: Analysis, after: T.Tm)
    requires Sealed(records) && SavedOk(records, |records|, before, savedNext)
    requires (forall t :: t in a.committed <==> HasCommit(records, t)) && a.maxTxn == MaxTxn(records)
    requires forall t :: t in a.uncommitted <==> InFlight(records, t)
    requires after.next == Max(a.maxTxn, savedNext) + 1 && after.att == {}
    requires forall t: TxnId :: t in after.committed <==>
      t !in a.uncommitted && (t in a.committed || t in before.committed)
    requires forall t: TxnId :: t in after.aborted <==> t in a.uncommitted || (t !in a.committed && t in before.aborted)
    ensures after.committed == Kept(records, before) && T.WellFormed(after)
    ensures forall t :: t in a.uncommitted ==> t < after.next
  {
    assert records[..|records|] == records;
    MaxTxnBounds(records);
    forall t: TxnId | InFlight(records, t) ensures !HasCommit(records, t) && t <= MaxTxn(records) {
      InFlightBounded(records, t);
    }
    forall t: TxnId | t in after.committed || t in after.aborted ensures t < after.next {
      assert HasCommit(records, t) || InFlight(records, t) || T.Decided(before, t);
    }
    hide InFlight;
    hide MaxTxn;
    hide HasBegin;
  }

  /** Redo stops at the first record it cannot apply. */
  lemma {:induction false} PrefixFails(pages: seq<HeapPage>, records: seq<Record>, n: nat)
    requires n <= |records| && RedoFrom(pages, records[..n]).Err?
    ensures RedoFrom(pages, records).Err?
    decreases |records| - n
  {
    if n < |records| {
      assert records[..n + 1][..n] == records[..n];
      PrefixFails(pages, records, n + 1);
    } else {
      assert records[..n] == records;
    }
  }
}
