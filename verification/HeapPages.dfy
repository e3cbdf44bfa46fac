/** Heap pages as bytes: a page of row versions stands for a page of the log's model, and redo on the bytes does what
    redo in the model does. */
module HeapPages {
  import opened Common
  import opened Bytes
  import opened SlottedPage
  import P = PageBytes
  import H = HeapLog

  predicate IsRow(t: Option<seq<Byte>>) {
    t.Some? && |t.value| >= MVCC_HEADER_SIZE
  }

  /** A row version's bytes: creator, deleter, forward pointer (which is not logged) and the rest. */
  function RowOf(b: seq<Byte>): H.Tup
    requires |b| >= MVCC_HEADER_SIZE
  {
    H.Tup(GetU64(b[0..8]), GetU64(b[8..16]), b[22..])
  }

  function RowsOf(ts: seq<Option<seq<Byte>>>): (rows: seq<H.Tup>)
    requires forall i :: 0 <= i < |ts| ==> IsRow(ts[i])
    ensures |rows| == |ts| && forall i :: 0 <= i < |ts| ==> IsRow(ts[i]) && rows[i] == RowOf(ts[i].value)
  {
    seq(|ts|, i requires 0 <= i < |ts| && IsRow(ts[i]) => RowOf(ts[i].value))
  }

  ghost predicate AllRows(d: P.Image)
    requires P.Wf(d)
  {
    forall i :: 0 <= i < |P.Tuples(d)| ==> IsRow(P.Tuples(d)[i])
  }

  /** A page on which nothing has been removed: all slots hold rows, and they account for all the used space. */
  ghost predicate IsHeap(d: P.Image) {
    P.Wf(d) && AllRows(d) && P.FreeSpace(d) == 4072 - H.Space(RowsOf(P.Tuples(d)))
  }

  /** The page of the log's model that the bytes stand for. */
  ghost function PageOf(d: P.Image): H.HeapPage
    requires IsHeap(d)
  {
    H.HeapPage(P.PageLsn(d), RowsOf(P.Tuples(d)))
  }

  lemma {:induction false} SameSpace(a: seq<H.Tup>, b: seq<H.Tup>)
    requires |a| == |b| && forall i :: 0 <= i < |a| ==> |a[i].body| == |b[i].body|
    ensures H.Space(a) == H.Space(b)
  {
    if a != [] {
      SameSpace(a[..|a| - 1], b[..|b| - 1]);
    }
  }

  /** A row fits the bytes exactly when it fits the model's page. */
  lemma FitsTogether(d: P.Image, data: seq<Byte>)
    requires IsHeap(d) && |data| >= MVCC_HEADER_SIZE
    ensures H.Fits(PageOf(d), RowOf(data)) <==> P.FreeSpace(d) >= |data| + P.SLOT_SIZE
  {
  }

  /** After an insert the bytes stand for the page with one row more. */
  lemma InsertedIs(d: P.Image, r: P.Image, data: seq<Byte>)
    requires IsHeap(d) && |data| >= MVCC_HEADER_SIZE && P.Wf(r)
    requires P.Tuples(r) == P.Tuples(d) + [Some(data)] && P.FreeSpace(r) == P.FreeSpace(d) - |data| - P.SLOT_SIZE
    requires P.PageLsn(r) == P.PageLsn(d)
    ensures IsHeap(r) && PageOf(r) == H.HeapPage(P.PageLsn(d), PageOf(d).slots + [RowOf(data)])
  {
    hide P.Wf;
    hide P.Tuples;
    hide P.FreeSpace;
    WfBounds(d);
    WfBounds(r);
    var was, rows := RowsOf(P.Tuples(d)), PageOf(d).slots + [RowOf(data)];
    assert AllRows(r);
    assert RowsOf(P.Tuples(r)) == rows;
    assert rows[..|rows| - 1] == was;
  }

  lemma PatchedRow(b: seq<Byte>, xmax: U64)
    requires |b| >= MVCC_HEADER_SIZE
    ensures var r := Patched(b, XMAX_AT, Le(xmax, 8));
      |r| == |b| && RowOf(r) == RowOf(b).(xmax := xmax)
  {
    hide Le;
    U64Round(xmax);
    var r := Patched(b, XMAX_AT, Le(xmax, 8));
    assert r[0..8] == b[0..8] && r[8..16] == Le(xmax, 8) && r[22..] == b[22..];
  }

  /** After an xmax write the bytes stand for the page with that row's deleter named. */
  lemma PatchedIs(d: P.Image, r: P.Image, slot: nat, xmax: U64)
    requires IsHeap(d) && P.Wf(r) && slot < |P.Tuples(d)|
    requires P.Tuples(d)[slot].Some? && |P.Tuples(d)[slot].value| >= 16
    requires P.Tuples(r) == P.Tuples(d)[slot := Some(Patched(P.Tuples(d)[slot].value, XMAX_AT, Le(xmax, 8)))]
    requires P.FreeSpace(r) == P.FreeSpace(d) && P.PageLsn(r) == P.PageLsn(d)
    ensures IsHeap(r)
    ensures PageOf(r) == H.HeapPage(P.PageLsn(d), PageOf(d).slots[slot := PageOf(d).slots[slot].(xmax := xmax)])
  {
    hide P.Wf;
    hide P.Tuples;
    hide P.FreeSpace;
    hide Le;
    hide RowOf;
    WfBounds(d);
    WfBounds(r);
    var ts := P.Tuples(d);
    assert IsRow(ts[slot]);
    PatchedRow(ts[slot].value, xmax);
    assert AllRows(r);
    var rows, was := RowsOf(P.Tuples(r)), RowsOf(ts);
    assert rows == was[slot := was[slot].(xmax := xmax)];
    SameSpace(was, rows);
  }

  /** The header's LSN field is apart from the directory and the rows. */
  lemma StampedIs(d: P.Image, lsn: U64)
    requires IsHeap(d)
    ensures var r := P.Splice(d, P.LSN_AT, Le(lsn, 8));
      IsHeap(r) && PageOf(r) == PageOf(d).(lsn := lsn)
  {
    hide P.Splice;
    hide Le;
    var r := P.Splice(d, P.LSN_AT, Le(lsn, 8));
    U64Round(lsn);
    P.SpliceAt(d, P.LSN_AT, Le(lsn, 8), P.LSN_AT, 8);
    P.SpliceAt(d, P.LSN_AT, Le(lsn, 8), P.COUNT_AT, 2);
    P.SpliceAt(d, P.LSN_AT, Le(lsn, 8), P.FREE_AT, 2);
    P.SpliceAt(d, P.LSN_AT, Le(lsn, 8), 24, 4072);
    assert r[24..] == r[24..4096] && d[24..] == d[24..4096];
    SameBody(d, r);
  }

  /** Pages that agree on the slot count, the free offset and everything behind the header hold the same tuples. */
  lemma SameBody(d: P.Image, r: P.Image)
    requires P.Wf(d) && P.Count(r) == P.Count(d) && P.FreeOffset(r) == P.FreeOffset(d) && r[24..] == d[24..]
    ensures P.Wf(r) && P.Tuples(r) == P.Tuples(d) && P.FreeSpace(r) == P.FreeSpace(d)
  {
    forall q: nat | 24 <= q && q + 2 <= 4096 ensures P.U16At(r, q) == P.U16At(d, q) {
      assert r[q] == r[24..][q - 24] && d[q] == d[24..][q - 24];
      assert r[q + 1] == r[24..][q - 23] && d[q + 1] == d[24..][q - 23];
    }
    hide P.U16At;
    forall i: nat | i < P.Count(d)
        ensures P.SlotOffset(r, i) == P.SlotOffset(d, i) && P.SlotLength(r, i) == P.SlotLength(d, i) {
      assert P.U16At(r, P.SlotAt(i)) == P.U16At(d, P.SlotAt(i));
      assert P.U16At(r, P.SlotAt(i) + 2) == P.U16At(d, P.SlotAt(i) + 2);
    }
    forall i: nat | i < P.Count(d) ensures P.TupleAt(r, i) == P.TupleAt(d, i) {
      assert r[24..][P.FreeOffset(d) - 24..] == r[P.FreeOffset(d)..] &&
        d[24..][P.FreeOffset(d) - 24..] == d[P.FreeOffset(d)..];
      P.SameTuple(d, r, P.FreeOffset(d), i);
    }
    hide P.TupleAt;
    assert P.Tuples(r) == P.Tuples(d);
  }

  lemma HeaderKeepsLsn(d: P.Image, r: P.Image)
    requires P.SameHeader(d, r)
    ensures P.PageLsn(r) == P.PageLsn(d)
  {
    assert r[P.LSN_AT..20] == r[12..22][..8] && d[P.LSN_AT..20] == d[12..22][..8];
  }

  /** `set_page_lsn`. */
  method Stamp(page: Page, lsn: U64)
    requires page.Valid() && IsHeap(page.Bytes())
    modifies page.data
    ensures page.Valid() && IsHeap(page.Bytes()) && PageOf(page.Bytes()) == old(PageOf(page.Bytes())).(lsn := lsn)
  {
    hide P.Wf;
    hide P.Tuples;
    hide P.FreeSpace;
    hide PageOf;
    StampedIs(page.Bytes(), lsn);
    page.Put(P.LSN_AT, Le(lsn, 8));
  }

  /** `redo_insert` on the bytes of a heap page, as in the model: skipped when the page is newer, an existing slot is
      left as it is, the next slot is appended, and a gap or a full page is an error. */
  method RedoInsert(page: Page, slot: nat, data: seq<Byte>, lsn: U64) returns (r: Result<bool>)
    requires page.Valid() && IsHeap(page.Bytes()) && |data| >= MVCC_HEADER_SIZE
    modifies page.data
    ensures page.Valid()
    ensures match H.RedoInsertPage(old(PageOf(page.Bytes())), slot, RowOf(data), lsn)
      case Ok(done) => r == Ok(done.1) && IsHeap(page.Bytes()) && PageOf(page.Bytes()) == done.0
      case Err => r == Err
  {
    hide P.Wf;
    hide P.TupleAt;
    hide P.FreeSpace;
    hide H.Space;
    ghost var before := page.Bytes();
    FitsTogether(before, data);
    var stored := PageLsnOf(page);
    if stored >= lsn {
      return Ok(false);
    }
    var n := page.TupleCount();
    if slot > n {
      var filler := page.Insert([]);
      if filler.Ok? {
        // an empty tuple reads as a tombstone, so that deleting it fails
        var ok := page.Delete(filler.value);
        assert !ok;
      }
      return Err;
    }
    if slot == n {
      var at := page.Insert(data);
      if at.Err? {
        return Err;
      }
      HeaderKeepsLsn(before, page.Bytes());
      InsertedIs(before, page.Bytes(), data);
    }
    Stamp(page, lsn);
    r := Ok(true);
  }

  method PageLsnOf(page: Page) returns (lsn: U64)
    requires page.Valid()
    ensures lsn == P.PageLsn(page.Bytes())
  {
    lsn := GetU64(page.data[P.LSN_AT..20]);
  }

  /** `redo_set_xmax` on the bytes of a heap page, as in the model. */
  method RedoSetXmax(page: Page, slot: nat, xmax: U64, lsn: U64) returns (r: Result<bool>)
    requires page.Valid() && IsHeap(page.Bytes())
    modifies page.data
    ensures page.Valid()
    ensures match H.RedoXmaxPage(old(PageOf(page.Bytes())), slot, xmax, lsn)
      case Ok(done) => r == Ok(done.1) && IsHeap(page.Bytes()) && PageOf(page.Bytes()) == done.0
      case Err => r == Err
  {
    hide P.Wf;
    hide P.TupleAt;
    hide P.FreeSpace;
    hide H.Space;
    ghost var before := page.Bytes();
    var stored := PageLsnOf(page);
    if stored >= lsn {
      return Ok(false);
    }
    WfBounds(before);
    assert slot < |P.Tuples(before)| ==> IsRow(P.Tuples(before)[slot]);
    var ok := page.SetTupleXmax(slot, xmax);
    if !ok {
      return Err;
    }
    HeaderKeepsLsn(before, page.Bytes());
    PatchedIs(before, page.Bytes(), slot, xmax);
    Stamp(page, lsn);
    r := Ok(true);
  }
}
