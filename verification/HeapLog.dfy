/** Heap pages, the log records that change them, and redo of one record or of a whole log. */
module HeapLog {
  import opened Common
  import opened Bytes

  /** A stored row version: MVCC header and payload. */
  datatype Tup = Tup(xmin: TxnId, xmax: TxnId, body: seq<Byte>)

  datatype HeapPage = HeapPage(lsn: Lsn, slots: seq<Tup>)

  const EMPTY_PAGE := HeapPage(0, [])

  const PAGE_SIZE := 4096
  const HEADER_SIZE := 24
  const SLOT_SIZE := 4
  const MVCC_HEADER_SIZE := 22

  function Need(t: Tup): nat {
    MVCC_HEADER_SIZE + |t.body| + SLOT_SIZE
  }

  function Space(slots: seq<Tup>): nat {
    if slots == [] then 0 else Space(slots[..|slots| - 1]) + Need(slots[|slots| - 1])
  }

  predicate Fits(p: HeapPage, t: Tup) {
    HEADER_SIZE + Space(p.slots) + Need(t) <= PAGE_SIZE
  }

  datatype Payload =
    | Begin
    | Commit
    | Abort
    | Insert(rid: Rid, tup: Tup)
    | SetXmax(rid: Rid, xmax: TxnId)   // the `Delete` record

  datatype Record = Record(lsn: Lsn, txn: TxnId, payload: Payload)

  predicate Touches(r: Record, pid: PageId) {
    (r.payload.Insert? || r.payload.SetXmax?) && r.payload.rid.page == pid
  }

  /** What the record did to page `pid` when it was written. */
  function Apply(p: HeapPage, r: Record, pid: PageId): HeapPage {
    if !Touches(r, pid) then p
    else match r.payload
      case Insert(rid, tup) => HeapPage(r.lsn, p.slots + [tup])
      case SetXmax(rid, xmax) =>
        if rid.slot < |p.slots| then HeapPage(r.lsn, p.slots[rid.slot := p.slots[rid.slot].(xmax := xmax)]) else p
      case _ => p
  }

  /** Page `pid` after the first `n` records, each applied once. */
  function Effect(log: seq<Record>, pid: PageId, n: nat): HeapPage
    requires n <= |log|
  {
    if n == 0 then EMPTY_PAGE else Apply(Effect(log, pid, n - 1), log[n - 1], pid)
  }

  function Target(r: Record): PageId {
    if r.payload.Insert? || r.payload.SetXmax? then r.payload.rid.page else 0
  }

  /** What the program writes when the target page is `p`: inserts go into the next slot of a page with room,
      xmax into existing slots, and headers name the writing transaction. */
  predicate Legal(r: Record, p: HeapPage) {
    && r.txn != NO_TXN
    && match r.payload
       case Insert(rid, tup) =>
         rid.slot == |p.slots| && Fits(p, tup) && tup.xmin == r.txn && tup.xmax == NO_TXN
       case SetXmax(rid, xmax) => rid.slot < |p.slots| && xmax == r.txn
       case _ => true
  }

  predicate RecordOk(log: seq<Record>, i: nat)
    requires i < |log|
  {
    log[i].lsn == i + 1 && Legal(log[i], Effect(log, Target(log[i]), i))
  }

  /** A log as the program writes it, with consecutive LSNs from 1. */
  predicate LogOk(log: seq<Record>) {
    forall i :: 0 <= i < |log| ==> RecordOk(log, i)
  }

  lemma {:induction false} EffectOfPrefix(log: seq<Record>, more: seq<Record>, pid: PageId, n: nat)
    requires n <= |log|
    ensures Effect(log + more, pid, n) == Effect(log, pid, n)
  {
    if n > 0 {
      EffectOfPrefix(log, more, pid, n - 1);
    }
  }

  /** The page's LSN is the last record that touched it, so it identifies the prefix the image reflects. */
  lemma {:induction false} EffectAtLsn(log: seq<Record>, pid: PageId, n: nat)
    requires LogOk(log) && n <= |log|
    ensures Effect(log, pid, n).lsn <= n
    ensures Effect(log, pid, Effect(log, pid, n).lsn) == Effect(log, pid, n)
  {
    if n > 0 {
      EffectAtLsn(log, pid, n - 1);
      assert RecordOk(log, n - 1);
    }
  }

  lemma LogOkPrefix(log: seq<Record>, k: nat)
    requires LogOk(log) && k <= |log|
    ensures LogOk(log[..k])
  {
    forall i | 0 <= i < k ensures RecordOk(log[..k], i) {
      assert RecordOk(log, i) && log[..k] + log[k..] == log;
      EffectOfPrefix(log[..k], log[k..], Target(log[i]), i);
    }
  }

  lemma LogOkExtend(log: seq<Record>, r: Record)
    requires LogOk(log) && r.lsn == |log| + 1 && Legal(r, Effect(log, Target(r), |log|))
    ensures LogOk(log + [r])
    ensures forall pid :: Effect(log + [r], pid, |log| + 1) == Apply(Effect(log, pid, |log|), r, pid)
  {
    var log' := log + [r];
    forall i | 0 <= i < |log'| ensures RecordOk(log', i) {
      if i < |log| {
        assert RecordOk(log, i);
      }
      EffectOfPrefix(log, [r], Target(log'[i]), i);
    }
    forall pid ensures Effect(log', pid, |log| + 1) == Apply(Effect(log, pid, |log|), r, pid) {
      EffectOfPrefix(log, [r], pid, |log|);
    }
  }

  // ---- redo ----

  /** `ensure_page_allocated`: new pages are appended until `pid` exists. */
  function Allocated(pages: seq<HeapPage>, pid: PageId): (r: seq<HeapPage>)
    ensures |r| >= |pages| && r[..|pages|] == pages && pid < |r|
    ensures forall q :: |pages| <= q < |r| ==> r[q] == EMPTY_PAGE
    ensures |r| == if pid < |pages| then |pages| else pid + 1
    decreases pid - |pages|
  {
    if pid < |pages| then pages else Allocated(pages + [EMPTY_PAGE], pid)
  }

  /** `redo_insert` on the fetched page: skipped when the page is newer; a slot gap cannot be filled (the
      filler tuple is empty, hence already a tombstone when it is deleted), and a full page refuses. */
  function RedoInsertPage(p: HeapPage, slot: nat, tup: Tup, lsn: Lsn): Result<(HeapPage, bool)> {
    if p.lsn >= lsn then Ok((p, false))
    else if slot < |p.slots| then Ok((p.(lsn := lsn), true))
    else if slot == |p.slots| && Fits(p, tup) then Ok((HeapPage(lsn, p.slots + [tup]), true))
    else Err
  }

  function RedoXmaxPage(p: HeapPage, slot: nat, xmax: TxnId, lsn: Lsn): Result<(HeapPage, bool)> {
    if p.lsn >= lsn then Ok((p, false))
    else if slot < |p.slots| then Ok((HeapPage(lsn, p.slots[slot := p.slots[slot].(xmax := xmax)]), true))
    else Err
  }

  datatype Redone = Redone(pages: seq<HeapPage>, applied: nat)

  function RedoOne(pages: seq<HeapPage>, r: Record): Result<Redone> {
    match r.payload
    case Insert(rid, tup) =>
      var ps := Allocated(pages, rid.page);
      (match RedoInsertPage(ps[rid.page], rid.slot, tup, r.lsn)
       case Ok(pr) => Ok(Redone(ps[rid.page := pr.0], if pr.1 then 1 else 0))
       case Err => Err)
    case SetXmax(rid, xmax) =>
      if |pages| <= rid.page then Ok(Redone(pages, 0))
      else (match RedoXmaxPage(pages[rid.page], rid.slot, xmax, r.lsn)
            case Ok(pr) => Ok(Redone(pages[rid.page := pr.0], if pr.1 then 1 else 0))
            case Err => Err)
    case _ => Ok(Redone(pages, 0))
  }

  function RedoFrom(pages: seq<HeapPage>, records: seq<Record>): Result<Redone> {
    if records == [] then Ok(Redone(pages, 0))
    else
      match RedoFrom(pages, records[..|records| - 1])
      case Err => Err
      case Ok(before) =>
        match RedoOne(before.pages, records[|records| - 1])
        case Err => Err
        case Ok(last) => Ok(Redone(last.pages, before.applied + last.applied))
  }

  function Max(a: nat, b: nat): nat { if a < b then b else a }

  /** The page reflects at least the first `i` records, and exactly the prefix its own LSN names if that is
      longer. With `i == 0`: the page is the image of some prefix of the log. */
  predicate UpTo(log: seq<Record>, i: nat, pid: PageId, p: HeapPage)
    requires i <= |log|
  {
    p.lsn <= |log| && p == Effect(log, pid, Max(i, p.lsn))
  }

  predicate AllUpTo(log: seq<Record>, i: nat, pages: seq<HeapPage>)
    requires i <= |log|
  {
    && (forall pid :: 0 <= pid < |pages| ==> UpTo(log, i, pid, pages[pid]))
    && (forall j :: 0 <= j < i && log[j].payload.Insert? ==> log[j].payload.rid.page < |pages|)
  }

  /** Pages that no record has inserted into are still empty. */
  lemma {:induction false} BeyondIsEmpty(log: seq<Record>, count: nat, n: nat)
    requires LogOk(log) && n <= |log|
    requires forall j :: 0 <= j < n && log[j].payload.Insert? ==> log[j].payload.rid.page < count
    ensures forall q: PageId :: q >= count ==> Effect(log, q, n) == EMPTY_PAGE
  {
    if n > 0 {
      BeyondIsEmpty(log, count, n - 1);
      assert RecordOk(log, n - 1);
    }
  }

  /** Redo of one record on its page, whatever prefix the page reflects; on a page that already reflects the
      whole log it does nothing. */
  lemma RedoPageStep(log: seq<Record>, i: nat, pid: PageId, p: HeapPage)
    requires LogOk(log) && i < |log| && UpTo(log, i, pid, p)
    ensures !Touches(log[i], pid) ==> UpTo(log, i + 1, pid, p)
    ensures Touches(log[i], pid) ==>
      var rid := log[i].payload.rid;
      var r := if log[i].payload.Insert? then RedoInsertPage(p, rid.slot, log[i].payload.tup, log[i].lsn)
               else RedoXmaxPage(p, rid.slot, log[i].payload.xmax, log[i].lsn);
      && r.Ok? && UpTo(log, i + 1, pid, r.value.0)
      && r.value.1 == (p.lsn < log[i].lsn)
      && (UpTo(log, |log|, pid, p) ==> r.value == (p, false))
  {
    assert RecordOk(log, i);
    if Touches(log[i], pid) {
      LsnAfterTouch(log, pid, i, |log|);
    }
  }

  /** One redo step moves every page one record on. */
  lemma RedoOneStep(log: seq<Record>, i: nat, pages: seq<HeapPage>)
    requires LogOk(log) && i < |log| && AllUpTo(log, i, pages)
    ensures RedoOne(pages, log[i]).Ok?
    ensures AllUpTo(log, i + 1, RedoOne(pages, log[i]).value.pages)
    ensures |RedoOne(pages, log[i]).value.pages| >= |pages|
    ensures AllUpTo(log, |log|, pages) ==> RedoOne(pages, log[i]).value == Redone(pages, 0)
  {
    var r := log[i];
    assert RecordOk(log, i);
    BeyondIsEmpty(log, |pages|, i);
    var ps := if r.payload.Insert? then Allocated(pages, r.payload.rid.page) else pages;
    forall pid | 0 <= pid < |ps| ensures UpTo(log, i, pid, ps[pid]) {
      if pid < |pages| {
        assert ps[pid] == pages[pid];
      }
    }
    forall pid | 0 <= pid < |ps| && !Touches(r, pid) ensures UpTo(log, i + 1, pid, ps[pid]) {
      RedoPageStep(log, i, pid, ps[pid]);
    }
    if r.payload.Insert? || (r.payload.SetXmax? && r.payload.rid.page < |pages|) {
      RedoPageStep(log, i, r.payload.rid.page, ps[r.payload.rid.page]);
    }
  }

  /** A page that redo changed carries the record's LSN; the others keep theirs or are new. */
  lemma RedoOneLsn(pages: seq<HeapPage>, r: Record, pid: PageId)
    requires RedoOne(pages, r).Ok? && pid < |RedoOne(pages, r).value.pages|
    ensures var p := RedoOne(pages, r).value.pages[pid];
      p.lsn <= r.lsn || (pid < |pages| && p == pages[pid])
  {
    if r.payload.Insert? {
      var ps := Allocated(pages, r.payload.rid.page);
      assert pid < |pages| ==> ps[pid] == pages[pid];
    }
  }

  lemma {:induction false} LsnAfterTouch(log: seq<Record>, pid: PageId, i: nat, n: nat)
    requires LogOk(log) && i < n <= |log| && Touches(log[i], pid)
    ensures Effect(log, pid, n).lsn > i
  {
    assert RecordOk(log, n - 1);
    if n > i + 1 {
      LsnAfterTouch(log, pid, i, n - 1);
    }
  }

  /** Redo convergence: from any mix of page images, each the effect of some prefix of the log, redoing the
      whole log succeeds and leaves every page as if each record had been applied once. */
  lemma {:induction false} RedoConverges(log: seq<Record>, n: nat, pages: seq<HeapPage>)
    requires LogOk(log) && n <= |log| && AllUpTo(log, 0, pages)
    ensures RedoFrom(pages, log[..n]).Ok?
    ensures AllUpTo(log, n, RedoFrom(pages, log[..n]).value.pages)
    ensures |RedoFrom(pages, log[..n]).value.pages| >= |pages|
  {
    if n > 0 {
      RedoConverges(log, n - 1, pages);
      assert log[..n][..n - 1] == log[..n - 1];
      RedoOneStep(log, n - 1, RedoFrom(pages, log[..n - 1]).value.pages);
    } else {
      assert log[..0] == [];
    }
  }

  /** A second pass over pages that reflect the whole log applies nothing. */
  lemma {:induction false} SecondPassIdle(log: seq<Record>, n: nat, pages: seq<HeapPage>)
    requires LogOk(log) && n <= |log| && AllUpTo(log, |log|, pages)
    ensures RedoFrom(pages, log[..n]) == Ok(Redone(pages, 0))
  {
    if n > 0 {
      SecondPassIdle(log, n - 1, pages);
      assert log[..n][..n - 1] == log[..n - 1];
      forall pid | 0 <= pid < |pages| ensures UpTo(log, n - 1, pid, pages[pid]) {
        assert UpTo(log, |log|, pid, pages[pid]);
        EffectAtLsn(log, pid, |log|);
        LsnBetween(log, pid, n - 1);
      }
      RedoOneStep(log, n - 1, pages);
    } else {
      assert log[..0] == [];
    }
  }

  lemma {:induction false} LsnBetween(log: seq<Record>, pid: PageId, i: nat)
    requires LogOk(log) && i <= |log|
    ensures var full := Effect(log, pid, |log|);
      full.lsn <= |log| && full == Effect(log, pid, Max(i, full.lsn))
  {
    var full := Effect(log, pid, |log|);
    EffectAtLsn(log, pid, |log|);
    if full.lsn < i {
      Constant(log, pid, full.lsn, i);
    }
  }

  lemma {:induction false} Constant(log: seq<Record>, pid: PageId, m: nat, i: nat)
    requires LogOk(log) && m <= i <= |log| && Effect(log, pid, |log|).lsn <= m
    ensures Effect(log, pid, i) == Effect(log, pid, m)
  {
    if m < i {
      Constant(log, pid, m, i - 1);
      if Touches(log[i - 1], pid) {
        LsnAfterTouch(log, pid, i - 1, |log|);
      }
    }
  }

  // ---- what the log says about one row ----

  predicate InsertedAt(log: seq<Record>, i: nat, rid: Rid)
    requires i < |log|
  {
    log[i].payload.Insert? && log[i].payload.rid == rid
  }

  /** The last xmax logged for the row among the first `n` records. */
  function LastXmax(log: seq<Record>, rid: Rid, n: nat): TxnId
    requires n <= |log|
  {
    if n == 0 then NO_TXN
    else if log[n - 1].payload.SetXmax? && log[n - 1].payload.rid == rid then log[n - 1].payload.xmax
    else LastXmax(log, rid, n - 1)
  }

  /** Every slot comes from exactly one Insert record and carries the last logged xmax. */
  lemma {:induction false} SlotOrigin(log: seq<Record>, rid: Rid, n: nat)
    requires LogOk(log) && n <= |log|
    ensures var slots := Effect(log, rid.page, n).slots;
      && (rid.slot < |slots| <==> exists i :: 0 <= i < n && InsertedAt(log, i, rid))
      && (forall i :: 0 <= i < n && InsertedAt(log, i, rid) ==>
            rid.slot < |slots| && slots[rid.slot] == log[i].payload.tup.(xmax := LastXmax(log, rid, n)))
      && (rid.slot >= |slots| ==> LastXmax(log, rid, n) == NO_TXN)
  {
    if n > 0 {
      SlotOrigin(log, rid, n - 1);
      assert RecordOk(log, n - 1);
      assert forall i :: 0 <= i < n - 1 && InsertedAt(log, i, rid) ==> 0 <= i < n && InsertedAt(log, i, rid);
      if InsertedAt(log, n - 1, rid) {
        assert exists i :: 0 <= i < n && InsertedAt(log, i, rid);
      }
    }
  }
}
