/** The byte layout of a slotted page, as functions of the 4096 bytes, and what each edit of them does. */
module PageBytes {
  import opened Common
  import opened Bytes

  const PAGE_SIZE := 4096
  const HEADER_SIZE := 24
  const SLOT_SIZE := 4

  /** Where the header fields are. */
  const COUNT_AT := 8
  const FREE_AT := 10
  const LSN_AT := 12
  const VISIBLE_AT := 22

  type Image = d: seq<Byte> | |d| == 4096 witness seq(4096, i => 0)

  function U16At(d: Image, p: nat): U16
    requires p + 2 <= 4096
  {
    var low: int, high: int := d[p], d[p + 1];
    low + 0x100 * high
  }

  function SetU16(d: Image, p: nat, x: U16): (r: Image)
    requires p + 2 <= 4096
  {
    d[p := x % 0x100][p + 1 := x / 0x100]
  }

  /** `b` copied over the bytes from `p` on. */
  function Splice(d: Image, p: nat, b: seq<Byte>): (r: Image)
    requires p + |b| <= 4096
  {
    d[..p] + b + d[p + |b|..]
  }

  lemma SpliceAt(d: Image, p: nat, b: seq<Byte>, x: nat, n: nat)
    requires p + |b| <= 4096 && x + n <= 4096
    ensures x + n <= p || p + |b| <= x ==> Splice(d, p, b)[x..x + n] == d[x..x + n]
    ensures Splice(d, p, b)[p..p + |b|] == b
    ensures n == 2 && (x + n <= p || p + |b| <= x) ==> U16At(Splice(d, p, b), x) == U16At(d, x)
  {
  }

  lemma SetU16At(d: Image, p: nat, x: U16, q: nat, n: nat)
    requires p + 2 <= 4096 && q + n <= 4096
    ensures q + n <= p || p + 2 <= q ==> SetU16(d, p, x)[q..q + n] == d[q..q + n]
    ensures U16At(SetU16(d, p, x), p) == x
    ensures n == 2 && (q + 2 <= p || p + 2 <= q) ==> U16At(SetU16(d, p, x), q) == U16At(d, q)
  {
  }

  function Count(d: Image): U16 { U16At(d, COUNT_AT) }

  function FreeOffset(d: Image): U16 { U16At(d, FREE_AT) }

  function PageLsn(d: Image): U64 { GetU64(d[LSN_AT..20]) }

  function SlotAt(i: nat): nat { HEADER_SIZE + SLOT_SIZE * i }

  function SlotOffset(d: Image, i: nat): U16
    requires SlotAt(i) + 4 <= 4096
  {
    U16At(d, SlotAt(i))
  }

  function SlotLength(d: Image, i: nat): U16
    requires SlotAt(i) + 4 <= 4096
  {
    U16At(d, SlotAt(i) + 2)
  }

  function FreeSpace(d: Image): int {
    if FreeOffset(d) < SlotAt(Count(d)) then 0 else FreeOffset(d) - SlotAt(Count(d))
  }

  /** The slot directory ends before the data area; live tuples lie in the data area, later slots strictly
      before earlier ones, so no two overlap. */
  ghost predicate Wf(d: Image) {
    && SlotAt(Count(d)) <= FreeOffset(d) <= 4096
    && (forall i :: 0 <= i < Count(d) && SlotLength(d, i) > 0 ==>
          FreeOffset(d) <= SlotOffset(d, i) && SlotOffset(d, i) + SlotLength(d, i) <= 4096)
    && (forall i, j :: 0 <= i < j < Count(d) && SlotLength(d, i) > 0 && SlotLength(d, j) > 0 ==>
          SlotOffset(d, j) + SlotLength(d, j) <= SlotOffset(d, i))
  }

  /** `get_tuple` for a slot in range: a slot of length zero is a tombstone. */
  function TupleAt(d: Image, i: nat): Option<seq<Byte>>
    requires SlotAt(i) + 4 <= 4096
  {
    var off, len := SlotOffset(d, i), SlotLength(d, i);
    if len == 0 || off + len > 4096 then None else Some(d[off..off + len])
  }

  /** What every slot of the page holds. */
  function Tuples(d: Image): (ts: seq<Option<seq<Byte>>>)
    requires SlotAt(Count(d)) <= 4096
    ensures |ts| == Count(d)
  {
    seq(Count(d), i requires 0 <= i < Count(d) => TupleAt(d, i))
  }

  /** Page id, next page, LSN, kind and the spare bytes. */
  predicate SameHeader(a: Image, b: Image) {
    a[..8] == b[..8] && a[12..22] == b[12..22] && a[23..24] == b[23..24]
  }

  predicate AllVisible(d: Image) { d[VISIBLE_AT] != 0 }

  // ---- a fresh page ----

  const NO_NEXT_PAGE: U32 := 0xFFFF_FFFF

  function Fresh(id: U32): Image {
    var zeros: Image := seq(4096, i => 0);
    var a := Splice(Splice(zeros, 0, Le(id, 4)), 4, Le(NO_NEXT_PAGE, 4));
    SetU16(SetU16(a, COUNT_AT, 0), FREE_AT, 4096)
  }

  lemma FreshIsEmpty(id: U32)
    ensures Wf(Fresh(id)) && Tuples(Fresh(id)) == [] && FreeSpace(Fresh(id)) == 4072 && !AllVisible(Fresh(id))
  {
    var zeros: Image := seq(4096, i => 0);
    var b := Splice(zeros, 0, Le(id, 4));
    var a := Splice(b, 4, Le(NO_NEXT_PAGE, 4));
    SetU16At(a, COUNT_AT, 0, FREE_AT, 2);
    SetU16At(SetU16(a, COUNT_AT, 0), FREE_AT, 4096, COUNT_AT, 2);
    assert zeros[22] == 0 && b[22] == zeros[22] && a[22] == b[22];
  }

  lemma FreshLsn(id: U32)
    ensures PageLsn(Fresh(id)) == 0
  {
    var zeros: Image := seq(4096, i => 0);
    var b := Splice(zeros, 0, Le(id, 4));
    var a := Splice(b, 4, Le(NO_NEXT_PAGE, 4));
    SetU16At(a, COUNT_AT, 0, LSN_AT, 8);
    SetU16At(SetU16(a, COUNT_AT, 0), FREE_AT, 4096, LSN_AT, 8);
    assert a[12..20] == b[12..20] == zeros[12..20];
    assert zeros[12..20] == Le(0, 8) by {
      ZeroBytes(8);
    }
    U64Round(0);
  }

  lemma {:induction false} ZeroBytes(n: nat)
    ensures Le(0, n) == seq(n, i => 0)
  {
    if n > 0 {
      ZeroBytes(n - 1);
    }
  }

  // ---- insert ----

  function WriteSlot(d: Image, i: nat, off: U16, len: U16): Image
    requires SlotAt(i) + 4 <= 4096
  {
    SetU16(SetU16(d, SlotAt(i), off), SlotAt(i) + 2, len)
  }

  /** Writing one slot changes that slot and nothing else. */
  lemma WriteSlotAt(d: Image, i: nat, off: U16, len: U16, q: nat, n: nat)
    requires SlotAt(i) + 4 <= 4096 && q + n <= 4096
    ensures SlotOffset(WriteSlot(d, i, off, len), i) == off && SlotLength(WriteSlot(d, i, off, len), i) == len
    ensures q + n <= SlotAt(i) || SlotAt(i) + 4 <= q ==> WriteSlot(d, i, off, len)[q..q + n] == d[q..q + n]
    ensures n == 2 && (q + 2 <= SlotAt(i) || SlotAt(i) + 4 <= q) ==> U16At(WriteSlot(d, i, off, len), q) == U16At(d, q)
  {
    var a := SetU16(d, SlotAt(i), off);
    SetU16At(d, SlotAt(i), off, q, n);
    SetU16At(a, SlotAt(i) + 2, len, q, n);
    SetU16At(a, SlotAt(i) + 2, len, SlotAt(i), 2);
  }

  predicate Fits(d: Image, t: seq<Byte>) {
    FreeSpace(d) >= |t| + SLOT_SIZE
  }

  function Inserted(d: Image, t: seq<Byte>): Image
    requires SlotAt(Count(d)) <= FreeOffset(d) <= 4096 && Fits(d, t)
  {
    var off := FreeOffset(d) - |t|;
    var a := WriteSlot(Splice(d, off, t), Count(d), off, |t|);
    var b := SetU16(SetU16(a, COUNT_AT, Count(d) + 1), FREE_AT, off);
    b[VISIBLE_AT := 0]
  }

  /** Fields of a page after an insert. */
  lemma InsertedFields(d: Image, t: seq<Byte>)
    requires Wf(d) && Fits(d, t)
    ensures var r := Inserted(d, t);
      && Count(r) == Count(d) + 1 && FreeOffset(r) == FreeOffset(d) - |t| && !AllVisible(r) && SameHeader(d, r)
      && SlotOffset(r, Count(d)) == FreeOffset(d) - |t| && SlotLength(r, Count(d)) == |t|
      && (forall i :: 0 <= i < Count(d) ==>
        SlotOffset(r, i) == SlotOffset(d, i) && SlotLength(r, i) == SlotLength(d, i))
      && r[FreeOffset(d) - |t|..FreeOffset(d)] == t
      && r[FreeOffset(d)..] == d[FreeOffset(d)..]
  {
    var n, off := Count(d), FreeOffset(d) - |t|;
    var a := Splice(d, off, t);
    var b := WriteSlot(a, n, off, |t|);
    var c := SetU16(b, COUNT_AT, n + 1);
    var e := SetU16(c, FREE_AT, off);
    var r := Inserted(d, t);
    assert r == e[VISIBLE_AT := 0];
    InsertedField(d, t, SlotAt(n));
    InsertedField(d, t, SlotAt(n) + 2);
    forall i | 0 <= i < n ensures SlotOffset(r, i) == SlotOffset(d, i) && SlotLength(r, i) == SlotLength(d, i) {
      InsertedField(d, t, SlotAt(i));
      InsertedField(d, t, SlotAt(i) + 2);
    }
    InsertedHeader(d, t);
  }

  /** The directory's fields after an insert, one at a time. */
  lemma InsertedField(d: Image, t: seq<Byte>, q: nat)
    requires Wf(d) && Fits(d, t) && HEADER_SIZE <= q && q + 2 <= SlotAt(Count(d) + 1)
    requires q + 2 <= SlotAt(Count(d)) || q == SlotAt(Count(d)) || q == SlotAt(Count(d)) + 2
    ensures U16At(Inserted(d, t), q) ==
      if q == SlotAt(Count(d)) then FreeOffset(d) - |t| else if q == SlotAt(Count(d)) + 2 then |t| else U16At(d, q)
  {
    var n, off := Count(d), FreeOffset(d) - |t|;
    var a := Splice(d, off, t);
    SpliceAt(d, off, t, q, 2);
    WriteSlotAt(a, n, off, |t|, q, 2);
    var b := WriteSlot(a, n, off, |t|);
    SetU16At(b, COUNT_AT, n + 1, q, 2);
    SetU16At(SetU16(b, COUNT_AT, n + 1), FREE_AT, off, q, 2);
  }

  lemma InsertedHeader(d: Image, t: seq<Byte>)
    requires Wf(d) && Fits(d, t)
    ensures var r := Inserted(d, t);
      && Count(r) == Count(d) + 1 && FreeOffset(r) == FreeOffset(d) - |t| && !AllVisible(r) && SameHeader(d, r)
      && r[FreeOffset(d) - |t|..FreeOffset(d)] == t && r[FreeOffset(d)..] == d[FreeOffset(d)..]
  {
    var n, off := Count(d), FreeOffset(d) - |t|;
    var a := Splice(d, off, t);
    var b := WriteSlot(a, n, off, |t|);
    var c := SetU16(b, COUNT_AT, n + 1);
    SetU16At(c, FREE_AT, off, COUNT_AT, 2);
    SetU16At(b, COUNT_AT, n + 1, COUNT_AT, 2);
    InsertedElsewhere(d, t, 0, 8);
    InsertedElsewhere(d, t, 12, 10);
    InsertedElsewhere(d, t, 23, 1);
    InsertedElsewhere(d, t, FreeOffset(d), 4096 - FreeOffset(d));
    InsertedData(d, t);
  }

  /** Bytes that an insert does not write. */
  lemma InsertedElsewhere(d: Image, t: seq<Byte>, x: nat, n: nat)
    requires Wf(d) && Fits(d, t) && x + n <= 4096
    requires || x + n <= COUNT_AT || (12 <= x && x + n <= VISIBLE_AT)
             || (23 <= x && x + n <= HEADER_SIZE) || FreeOffset(d) <= x
    ensures Inserted(d, t)[x..x + n] == d[x..x + n]
  {
    hide Splice;
    hide SetU16;
    hide WriteSlot;
    hide U16At;
    var k, off := Count(d), FreeOffset(d) - |t|;
    var a := Splice(d, off, t);
    var b := WriteSlot(a, k, off, |t|);
    var c := SetU16(b, COUNT_AT, k + 1);
    SpliceAt(d, off, t, x, n);
    WriteSlotAt(a, k, off, |t|, x, n);
    SetU16At(b, COUNT_AT, k + 1, x, n);
    SetU16At(c, FREE_AT, off, x, n);
    OneByteAt(SetU16(c, FREE_AT, off), VISIBLE_AT, 0, x, n);
  }

  lemma OneByteAt(d: Image, p: nat, v: Byte, x: nat, n: nat)
    requires p < 4096 && x + n <= 4096 && (x + n <= p || p < x)
    ensures d[p := v][x..x + n] == d[x..x + n]
  {
  }

  lemma InsertedData(d: Image, t: seq<Byte>)
    requires Wf(d) && Fits(d, t)
    ensures Inserted(d, t)[FreeOffset(d) - |t|..FreeOffset(d)] == t
  {
    var k, off := Count(d), FreeOffset(d) - |t|;
    var a := Splice(d, off, t);
    var b := WriteSlot(a, k, off, |t|);
    var c := SetU16(b, COUNT_AT, k + 1);
    SpliceAt(d, off, t, off, |t|);
    WriteSlotAt(a, k, off, |t|, off, |t|);
    SetU16At(b, COUNT_AT, k + 1, off, |t|);
    SetU16At(c, FREE_AT, off, off, |t|);
  }

  /** An insert appends one tuple and leaves all others as they were. An empty tuple reads as a tombstone. */
  lemma InsertKeeps(d: Image, t: seq<Byte>)
    requires Wf(d) && Fits(d, t)
    ensures var r := Inserted(d, t);
      && Wf(r) && Tuples(r) == Tuples(d) + [if t == [] then None else Some(t)]
      && FreeSpace(r) == FreeSpace(d) - |t| - SLOT_SIZE && SameHeader(d, r) && !AllVisible(r)
  {
    hide Inserted;
    hide U16At;
    InsertedFields(d, t);
    var r := Inserted(d, t);
    forall i | 0 <= i < Count(d) ensures TupleAt(r, i) == TupleAt(d, i) {
      SameTuple(d, r, FreeOffset(d), i);
    }
    assert TupleAt(r, Count(d)) == if t == [] then None else Some(t);
    hide TupleAt;
    hide FreeOffset;
    assert Tuples(r) == Tuples(d) + [TupleAt(r, Count(d))];
  }

  /** The same slot over the same data area holds the same tuple. */
  lemma SameTuple(d: Image, r: Image, from: nat, i: nat)
    requires SlotAt(i) + 4 <= 4096 && SlotOffset(r, i) == SlotOffset(d, i) && SlotLength(r, i) == SlotLength(d, i)
    requires from <= 4096 && r[from..] == d[from..] && (SlotLength(d, i) > 0 ==> from <= SlotOffset(d, i))
    ensures TupleAt(r, i) == TupleAt(d, i)
  {
    hide U16At;
    var off, len := SlotOffset(d, i), SlotLength(d, i);
    if len > 0 && off + len <= 4096 {
      assert r[from..][off - from..off + len - from] == r[off..off + len];
      assert d[from..][off - from..off + len - from] == d[off..off + len];
    }
  }

  // ---- delete and in-place patches ----

  function Deleted(d: Image, i: nat): Image
    requires SlotAt(i) + 4 <= 4096
  {
    WriteSlot(d, i, SlotOffset(d, i), 0)
  }

  /** A slot write that keeps the header and the data area, and the other slots. */
  lemma SlotFields(d: Image, i: nat, off: U16, len: U16)
    requires Wf(d) && i < Count(d)
    ensures var r := WriteSlot(d, i, off, len);
      && Count(r) == Count(d) && FreeOffset(r) == FreeOffset(d) && r[..HEADER_SIZE] == d[..HEADER_SIZE]
      && SlotOffset(r, i) == off && SlotLength(r, i) == len
      && (forall j :: 0 <= j < Count(d) && j != i ==>
        SlotOffset(r, j) == SlotOffset(d, j) && SlotLength(r, j) == SlotLength(d, j))
      && r[FreeOffset(d)..] == d[FreeOffset(d)..]
  {
    hide WriteSlot;
    hide U16At;
    var r := WriteSlot(d, i, off, len);
    WriteSlotAt(d, i, off, len, 0, HEADER_SIZE);
    WriteSlotAt(d, i, off, len, COUNT_AT, 2);
    WriteSlotAt(d, i, off, len, FREE_AT, 2);
    WriteSlotAt(d, i, off, len, FreeOffset(d), 4096 - FreeOffset(d));
    assert r[FreeOffset(d)..4096] == r[FreeOffset(d)..] && d[FreeOffset(d)..4096] == d[FreeOffset(d)..];
    forall j | 0 <= j < Count(d) && j != i
        ensures SlotOffset(r, j) == SlotOffset(d, j) && SlotLength(r, j) == SlotLength(d, j) {
      WriteSlotAt(d, i, off, len, SlotAt(j), 2);
      WriteSlotAt(d, i, off, len, SlotAt(j) + 2, 2);
    }
  }

  /** A delete turns one slot into a tombstone; the bytes and the free space stay. */
  lemma DeleteKeeps(d: Image, i: nat)
    requires Wf(d) && i < Count(d)
    ensures var r := Deleted(d, i);
      Wf(r) && Tuples(r) == Tuples(d)[i := None] && FreeSpace(r) == FreeSpace(d) && r[..HEADER_SIZE] == d[..HEADER_SIZE]
  {
    hide WriteSlot;
    hide U16At;
    SlotFields(d, i, SlotOffset(d, i), 0);
    var r := Deleted(d, i);
    forall j | 0 <= j < Count(d) && j != i ensures TupleAt(r, j) == TupleAt(d, j) {
      SameTuple(d, r, FreeOffset(d), j);
    }
    assert TupleAt(r, i) == None;
    hide TupleAt;
    assert Tuples(r) == Tuples(d)[i := None];
  }

  /** Bytes written inside one live tuple change that part of that tuple and nothing else on the page. */
  lemma PatchKeeps(d: Image, i: nat, at: nat, b: seq<Byte>)
    requires Wf(d) && i < Count(d) && SlotLength(d, i) > 0 && at + |b| <= SlotLength(d, i)
    ensures var r := Splice(d, SlotOffset(d, i) + at, b);
      && Wf(r) && FreeSpace(r) == FreeSpace(d) && r[..HEADER_SIZE] == d[..HEADER_SIZE]
      && Tuples(d)[i].Some? && |Tuples(d)[i].value| == SlotLength(d, i)
      && Tuples(r) == Tuples(d)[i := Some(Tuples(d)[i].value[..at] + b + Tuples(d)[i].value[at + |b|..])]
      && SlotOffset(r, i) == SlotOffset(d, i) && SlotLength(r, i) == SlotLength(d, i)
  {
    hide Splice;
    hide U16At;
    hide TupleAt;
    var r := Splice(d, SlotOffset(d, i) + at, b);
    PatchLow(d, i, at, b);
    PatchFields(d, r);
    PatchedTuple(d, i, at, b);
    forall j | 0 <= j < Count(d) && j != i ensures TupleAt(r, j) == TupleAt(d, j) {
      PatchOther(d, i, at, b, j);
    }
    assert Tuples(r) == Tuples(d)[i := TupleAt(r, i)];
  }

  lemma PatchLow(d: Image, i: nat, at: nat, b: seq<Byte>)
    requires Wf(d) && i < Count(d) && SlotLength(d, i) > 0 && at + |b| <= SlotLength(d, i)
    ensures var r := Splice(d, SlotOffset(d, i) + at, b);
      r[..HEADER_SIZE] == d[..HEADER_SIZE] && forall q :: 0 <= q && q + 2 <= FreeOffset(d) ==>
        U16At(r, q) == U16At(d, q)
  {
    hide U16At;
    hide Splice;
    var p := SlotOffset(d, i) + at;
    assert FreeOffset(d) <= p;
    SpliceAt(d, p, b, 0, HEADER_SIZE);
    forall q | 0 <= q && q + 2 <= FreeOffset(d) ensures U16At(Splice(d, p, b), q) == U16At(d, q) {
      SpliceAt(d, p, b, q, 2);
    }
  }

  lemma PatchOther(d: Image, i: nat, at: nat, b: seq<Byte>, j: nat)
    requires Wf(d) && i < Count(d) && SlotLength(d, i) > 0 && at + |b| <= SlotLength(d, i) && j < Count(d) && j != i
    requires var r := Splice(d, SlotOffset(d, i) + at, b);
      SlotOffset(r, j) == SlotOffset(d, j) && SlotLength(r, j) == SlotLength(d, j)
    ensures TupleAt(Splice(d, SlotOffset(d, i) + at, b), j) == TupleAt(d, j)
  {
    hide U16At;
    hide Splice;
    if SlotLength(d, j) > 0 {
      SpliceAt(d, SlotOffset(d, i) + at, b, SlotOffset(d, j), SlotLength(d, j));
    }
  }

  lemma PatchFields(d: Image, r: Image)
    requires Wf(d) && forall q :: 0 <= q && q + 2 <= FreeOffset(d) ==> U16At(r, q) == U16At(d, q)
    ensures Wf(r) && Count(r) == Count(d) && FreeOffset(r) == FreeOffset(d)
    ensures forall j :: 0 <= j < Count(d) ==>
      SlotOffset(r, j) == SlotOffset(d, j) && SlotLength(r, j) == SlotLength(d, j)
  {
    hide U16At;
    assert U16At(r, COUNT_AT) == U16At(d, COUNT_AT) && U16At(r, FREE_AT) == U16At(d, FREE_AT);
    forall j | 0 <= j < Count(d) ensures SlotOffset(r, j) == SlotOffset(d, j) && SlotLength(r, j) == SlotLength(d, j) {
      assert U16At(r, SlotAt(j)) == U16At(d, SlotAt(j)) && U16At(r, SlotAt(j) + 2) == U16At(d, SlotAt(j) + 2);
    }
  }

  lemma PatchedTuple(d: Image, i: nat, at: nat, b: seq<Byte>)
    requires Wf(d) && i < Count(d) && SlotLength(d, i) > 0 && at + |b| <= SlotLength(d, i)
    requires var r := Splice(d, SlotOffset(d, i) + at, b);
      SlotOffset(r, i) == SlotOffset(d, i) && SlotLength(r, i) == SlotLength(d, i)
    ensures TupleAt(d, i).Some? && |TupleAt(d, i).value| == SlotLength(d, i)
    ensures var t := TupleAt(d, i).value;
      TupleAt(Splice(d, SlotOffset(d, i) + at, b), i) == Some(t[..at] + b + t[at + |b|..])
  {
    hide U16At;
    var off, len := SlotOffset(d, i), SlotLength(d, i);
    var r, t := Splice(d, off + at, b), d[off..off + len];
    assert r[off..off + len] == t[..at] + b + t[at + |b|..];
  }

  // ---- compaction ----

  /** The bytes of live tuples. */
  function Used(ts: seq<Option<seq<Byte>>>): nat {
    if ts == [] then 0
    else Used(ts[..|ts| - 1]) + match ts[|ts| - 1] case None => 0 case Some(b) => |b|
  }

  /** Live tuples in slot order, packed against the end of the page: where tuple `k` comes to lie. */
  function Place(ts: seq<Option<seq<Byte>>>, k: nat): int
    requires k < |ts|
  {
    4096 - Used(ts[..k + 1])
  }

  lemma UsedStep(ts: seq<Option<seq<Byte>>>, k: nat)
    requires k < |ts|
    ensures Used(ts[..k + 1]) == Used(ts[..k]) + match ts[k] case None => 0 case Some(b) => |b|
  {
    assert ts[..k + 1][..k] == ts[..k];
  }

  lemma {:induction false} UsedMonotone(ts: seq<Option<seq<Byte>>>, j: nat, k: nat)
    requires j <= k <= |ts|
    ensures Used(ts[..j]) <= Used(ts[..k])
    decreases k
  {
    if j < k {
      UsedMonotone(ts, j, k - 1);
      UsedStep(ts, k - 1);
    }
  }

  /** Live tuples lie one below the other, so together they fit above the lowest. */
  lemma {:induction false} LiveFit(d: Image, k: nat, low: nat)
    requires Wf(d) && k <= Count(d) && low <= 4096
    requires forall j :: 0 <= j < k && SlotLength(d, j) > 0 ==> low <= SlotOffset(d, j)
    ensures Used(Tuples(d)[..k]) <= 4096 - low
    decreases k
  {
    hide U16At;
    if k > 0 {
      UsedStep(Tuples(d), k - 1);
      var off, len := SlotOffset(d, k - 1), SlotLength(d, k - 1);
      LiveFit(d, k - 1, if len > 0 then off + len else low);
    }
  }

  function Cleared(d: Image, n: nat): Image
    requires SlotAt(n) <= 4096
  {
    if n == 0 then d else WriteSlot(Cleared(d, n - 1), n - 1, 0, 0)
  }

  /** The first `k` live tuples written back from the end of the page. */
  function Packed(d: Image, ts: seq<Option<seq<Byte>>>, k: nat): Image
    requires k <= |ts| && SlotAt(|ts|) + Used(ts[..k]) <= 4096
  {
    if k == 0 then d else
    UsedStep(ts, k - 1);
    var p := Packed(d, ts, k - 1);
    match ts[k - 1]
    case None => p
    case Some(b) => WriteSlot(Splice(p, Place(ts, k - 1), b), k - 1, Place(ts, k - 1), |b|)
  }

  function Compacted(d: Image): Image
    requires Wf(d)
  {
    LiveFit(d, Count(d), FreeOffset(d));
    assert Tuples(d)[..Count(d)] == Tuples(d);
    var ts := Tuples(d);
    SetU16(Packed(Cleared(d, Count(d)), ts, |ts|), FREE_AT, 4096 - Used(ts))
  }

  /** What a page looks like when the first `k` tuples have been packed onto `base`, whose slots are cleared. */
  ghost predicate PackedOk(base: Image, p: Image, ts: seq<Option<seq<Byte>>>, k: nat)
    requires k <= |ts| && SlotAt(|ts|) + Used(ts[..k]) <= 4096
  {
    && p[..HEADER_SIZE] == base[..HEADER_SIZE]
    && p[SlotAt(|ts|)..4096 - Used(ts[..k])] == base[SlotAt(|ts|)..4096 - Used(ts[..k])]
    && Directory(p, ts, k)
    && AllHeld(p, ts, k)
  }

  /** The slots of the first `k` tuples name their places, and the others are cleared. */
  ghost predicate Directory(p: Image, ts: seq<Option<seq<Byte>>>, k: nat)
    requires k <= |ts| && SlotAt(|ts|) <= 4096
  {
    forall i :: 0 <= i < |ts| ==>
      SlotOffset(p, i) == (if i < k && ts[i].Some? then Place(ts, i) else 0) &&
      SlotLength(p, i) == (if i < k && ts[i].Some? then |ts[i].value| else 0)
  }

  ghost predicate AllHeld(p: Image, ts: seq<Option<seq<Byte>>>, k: nat) {
    forall i :: 0 <= i < k && i < |ts| && ts[i].Some? ==> Holds(p, ts, i)
  }

  /** Tuple `i` lies where it belongs. */
  ghost predicate Holds(p: Image, ts: seq<Option<seq<Byte>>>, i: nat) {
    && i < |ts| && ts[i].Some? && 0 <= Place(ts, i) && Place(ts, i) + |ts[i].value| <= 4096
    && p[Place(ts, i)..Place(ts, i) + |ts[i].value|] == ts[i].value
  }

  lemma {:induction false} ClearedOk(d: Image, n: nat, k: nat)
    requires SlotAt(n) <= 4096 && k <= n
    ensures var r := Cleared(d, k);
      && r[..HEADER_SIZE] == d[..HEADER_SIZE] && r[SlotAt(k)..] == d[SlotAt(k)..]
      && forall i :: 0 <= i < k ==> SlotOffset(r, i) == 0 && SlotLength(r, i) == 0
    decreases k
  {
    hide U16At;
    hide WriteSlot;
    if k > 0 {
      ClearedOk(d, n, k - 1);
      var p := Cleared(d, k - 1);
      var r := WriteSlot(p, k - 1, 0, 0);
      WriteSlotAt(p, k - 1, 0, 0, 0, HEADER_SIZE);
      WriteSlotAt(p, k - 1, 0, 0, SlotAt(k), 4096 - SlotAt(k));
      assert r[SlotAt(k)..4096] == r[SlotAt(k)..] && p[SlotAt(k)..4096] == p[SlotAt(k)..];
      assert p[SlotAt(k)..] == p[SlotAt(k - 1)..][SLOT_SIZE..] && d[SlotAt(k)..] == d[SlotAt(k - 1)..][SLOT_SIZE..];
      forall i | 0 <= i < k - 1 ensures SlotOffset(r, i) == 0 && SlotLength(r, i) == 0 {
        assert SlotOffset(p, i) == 0 && SlotLength(p, i) == 0;
        WriteSlotAt(p, k - 1, 0, 0, SlotAt(i), 2);
        WriteSlotAt(p, k - 1, 0, 0, SlotAt(i) + 2, 2);
      }
    }
  }

  lemma {:induction false} PackedIsOk(base: Image, ts: seq<Option<seq<Byte>>>, k: nat)
    requires k <= |ts| && SlotAt(|ts|) + Used(ts[..k]) <= 4096
    requires forall i :: 0 <= i < |ts| ==> SlotOffset(base, i) == 0 && SlotLength(base, i) == 0
    ensures PackedOk(base, Packed(base, ts, k), ts, k)
    decreases k
  {
    hide U16At;
    if k > 0 {
      UsedStep(ts, k - 1);
      PackedIsOk(base, ts, k - 1);
      PackOne(base, Packed(base, ts, k - 1), ts, k);
    }
  }

  /** One more tuple packed. */
  lemma PackOne(base: Image, p: Image, ts: seq<Option<seq<Byte>>>, k: nat)
    requires 0 < k <= |ts| && Used(ts[..k - 1]) <= Used(ts[..k]) && SlotAt(|ts|) + Used(ts[..k]) <= 4096
    requires Used(ts[..k]) == Used(ts[..k - 1]) + match ts[k - 1] case None => 0 case Some(b) => |b|
    requires PackedOk(base, p, ts, k - 1)
    ensures PackedOk(base, match ts[k - 1]
                           case None => p
                           case Some(b) => WriteSlot(Splice(p, Place(ts, k - 1), b), k - 1, Place(ts, k - 1), |b|),
                             ts, k)
  {
    hide U16At;
    hide WriteSlot;
    hide Splice;
    hide Used;
    if ts[k - 1].Some? {
      var b, at := ts[k - 1].value, Place(ts, k - 1);
      var s := Splice(p, at, b);
      var r := WriteSlot(s, k - 1, at, |b|);
      PackOneBytes(base, p, ts, k);
      PackOneSlots(base, p, ts, k);
      forall i | 0 <= i < k && ts[i].Some? ensures Holds(r, ts, i) {
        PackOneHolds(base, p, ts, k, i);
      }
    }
  }

  lemma PackedParts(base: Image, p: Image, ts: seq<Option<seq<Byte>>>, k: nat)
    requires k <= |ts| && SlotAt(|ts|) + Used(ts[..k]) <= 4096 && PackedOk(base, p, ts, k)
    ensures p[..HEADER_SIZE] == base[..HEADER_SIZE]
    ensures p[SlotAt(|ts|)..4096 - Used(ts[..k])] == base[SlotAt(|ts|)..4096 - Used(ts[..k])]
    ensures Directory(p, ts, k) && AllHeld(p, ts, k)
  {
    hide Directory;
    hide AllHeld;
  }

  lemma PackOneBytes(base: Image, p: Image, ts: seq<Option<seq<Byte>>>, k: nat)
    requires 0 < k <= |ts| && SlotAt(|ts|) + Used(ts[..k]) <= 4096 && ts[k - 1].Some?
    requires Used(ts[..k]) == Used(ts[..k - 1]) + |ts[k - 1].value|
    requires PackedOk(base, p, ts, k - 1)
    ensures var b := ts[k - 1].value;
      var r := WriteSlot(Splice(p, Place(ts, k - 1), b), k - 1, Place(ts, k - 1), |b|);
      && r[..HEADER_SIZE] == base[..HEADER_SIZE]
      && r[SlotAt(|ts|)..4096 - Used(ts[..k])] == base[SlotAt(|ts|)..4096 - Used(ts[..k])]
  {
    hide U16At;
    hide WriteSlot;
    hide Splice;
    var b, at := ts[k - 1].value, Place(ts, k - 1);
    var s := Splice(p, at, b);
    var x, n := SlotAt(|ts|), 4096 - Used(ts[..k]) - SlotAt(|ts|);
    hide PackedOk;
    PackedParts(base, p, ts, k - 1);
    SpliceAt(p, at, b, 0, HEADER_SIZE);
    WriteSlotAt(s, k - 1, at, |b|, 0, HEADER_SIZE);
    SpliceAt(p, at, b, x, n);
    WriteSlotAt(s, k - 1, at, |b|, x, n);
    SubSlice(p, base, x, x + n, 4096 - Used(ts[..k - 1]));
  }

  lemma PackOneSlots(base: Image, p: Image, ts: seq<Option<seq<Byte>>>, k: nat)
    requires 0 < k <= |ts| && SlotAt(|ts|) + Used(ts[..k]) <= 4096 && ts[k - 1].Some?
    requires Used(ts[..k]) == Used(ts[..k - 1]) + |ts[k - 1].value|
    requires PackedOk(base, p, ts, k - 1)
    ensures var b := ts[k - 1].value;
      var r := WriteSlot(Splice(p, Place(ts, k - 1), b), k - 1, Place(ts, k - 1), |b|);
      forall i :: 0 <= i < |ts| ==>
        SlotOffset(r, i) == (if i < k && ts[i].Some? then Place(ts, i) else 0) &&
        SlotLength(r, i) == (if i < k && ts[i].Some? then |ts[i].value| else 0)
  {
    hide U16At;
    hide WriteSlot;
    hide Splice;
    var b, at := ts[k - 1].value, Place(ts, k - 1);
    var s := Splice(p, at, b);
    var r := WriteSlot(s, k - 1, at, |b|);
    forall i | 0 <= i < |ts|
      ensures SlotOffset(r, i) == (if i < k && ts[i].Some? then Place(ts, i) else 0)
      ensures SlotLength(r, i) == (if i < k && ts[i].Some? then |ts[i].value| else 0)
    {
      assert SlotOffset(p, i) == (if i < k - 1 && ts[i].Some? then Place(ts, i) else 0);
      assert SlotLength(p, i) == (if i < k - 1 && ts[i].Some? then |ts[i].value| else 0);
      SpliceAt(p, at, b, SlotAt(i), 2);
      SpliceAt(p, at, b, SlotAt(i) + 2, 2);
      WriteSlotAt(s, k - 1, at, |b|, SlotAt(i), 2);
      WriteSlotAt(s, k - 1, at, |b|, SlotAt(i) + 2, 2);
    }
  }

  lemma PackOneHolds(base: Image, p: Image, ts: seq<Option<seq<Byte>>>, k: nat, i: nat)
    requires 0 < k <= |ts| && SlotAt(|ts|) + Used(ts[..k]) <= 4096 && ts[k - 1].Some? && i < k && ts[i].Some?
    requires Used(ts[..k]) == Used(ts[..k - 1]) + |ts[k - 1].value|
    requires PackedOk(base, p, ts, k - 1)
    ensures var b := ts[k - 1].value;
      Holds(WriteSlot(Splice(p, Place(ts, k - 1), b), k - 1, Place(ts, k - 1), |b|), ts, i)
  {
    hide U16At;
    hide WriteSlot;
    hide Splice;
    hide Used;
    hide Place;
    PlaceBounds(ts, i, k);
    PlaceBounds(ts, k - 1, k);
    var b, at := ts[k - 1].value, Place(ts, k - 1);
    var s := Splice(p, at, b);
    if i < k - 1 {
      assert Holds(p, ts, i);
      PlaceBounds(ts, i, k - 1);
    }
    SpliceAt(p, at, b, Place(ts, i), |ts[i].value|);
    WriteSlotAt(s, k - 1, at, |b|, Place(ts, i), |ts[i].value|);
  }

  /** Where tuple `i` lies among the first `k`. */
  lemma PlaceBounds(ts: seq<Option<seq<Byte>>>, i: nat, k: nat)
    requires i < k <= |ts| && ts[i].Some?
    ensures 4096 - Used(ts[..k]) <= Place(ts, i) && Place(ts, i) + |ts[i].value| <= 4096
    ensures Place(ts, i) + |ts[i].value| == 4096 - Used(ts[..i])
    ensures i == k - 1 ==> Place(ts, i) == 4096 - Used(ts[..k])
  {
    UsedStep(ts, i);
    UsedMonotone(ts, i + 1, k);
  }

  /** A compacted page, said outright: the header but for the free offset, the gap between directory and data,
      every slot and every live tuple. */
  ghost predicate CompactOf(d: Image, ts: seq<Option<seq<Byte>>>, c: Image) {
    && SlotAt(|ts|) + Used(ts) <= 4096
    && c[..FREE_AT] == d[..FREE_AT] && c[12..HEADER_SIZE] == d[12..HEADER_SIZE] && FreeOffset(c) == 4096 - Used(ts)
    && c[SlotAt(|ts|)..4096 - Used(ts)] == d[SlotAt(|ts|)..4096 - Used(ts)]
    && Directory(c, ts, |ts|)
    && AllHeld(c, ts, |ts|)
  }

  lemma CompactedIs(d: Image)
    requires Wf(d)
    ensures CompactOf(d, Tuples(d), Compacted(d))
  {
    hide U16At;
    hide TupleAt;
    hide PackedOk;
    hide CompactOf;
    hide Packed;
    hide Cleared;
    hide SetU16;
    hide Used;
    var n, ts := Count(d), Tuples(d);
    LiveFit(d, n, FreeOffset(d));
    assert ts[..n] == ts;
    var base := Cleared(d, n);
    ClearedOk(d, n, n);
    PackedIsOk(base, ts, n);
    SetFree(d, base, Packed(base, ts, n), ts);
  }

  lemma SetFree(d: Image, base: Image, p: Image, ts: seq<Option<seq<Byte>>>)
    requires SlotAt(|ts|) + Used(ts) <= 4096 && ts[..|ts|] == ts && PackedOk(base, p, ts, |ts|)
    requires base[..HEADER_SIZE] == d[..HEADER_SIZE] && base[SlotAt(|ts|)..] == d[SlotAt(|ts|)..]
    ensures CompactOf(d, ts, SetU16(p, FREE_AT, 4096 - Used(ts)))
  {
    hide U16At;
    hide SetU16;
    hide Directory;
    hide AllHeld;
    hide FreeOffset;
    hide Used;
    hide PackedOk;
    PackedParts(base, p, ts, |ts|);
    SetFreeHeader(d, base, p, ts);
    SetFreeGap(d, base, p, SlotAt(|ts|), 4096 - Used(ts));
    SetFreeSlots(p, ts);
    SetFreeHolds(p, ts);
  }

  lemma SetFreeGap(d: Image, base: Image, p: Image, low: nat, free: U16)
    requires HEADER_SIZE <= low <= free <= 4096 && p[low..free] == base[low..free] && base[low..] == d[low..]
    ensures SetU16(p, FREE_AT, free)[low..free] == d[low..free]
  {
    hide U16At;
    hide SetU16;
    SetU16At(p, FREE_AT, free, low, free - low);
    assert d[low..free] == d[low..][..free - low] && base[low..free] == base[low..][..free - low];
  }

  lemma SetFreeSlots(p: Image, ts: seq<Option<seq<Byte>>>)
    requires SlotAt(|ts|) + Used(ts) <= 4096 && Directory(p, ts, |ts|)
    ensures Directory(SetU16(p, FREE_AT, 4096 - Used(ts)), ts, |ts|)
  {
    hide SetU16;
    hide SlotOffset;
    hide SlotLength;
    hide Used;
    hide Place;
    var c := SetU16(p, FREE_AT, 4096 - Used(ts));
    forall i | 0 <= i < |ts|
      ensures SlotOffset(c, i) == (if ts[i].Some? then Place(ts, i) else 0)
      ensures SlotLength(c, i) == (if ts[i].Some? then |ts[i].value| else 0)
    {
      SlotUntouched(p, 4096 - Used(ts), i);
    }
  }

  /** The free offset is not in the directory. */
  lemma SlotUntouched(p: Image, free: U16, i: nat)
    requires SlotAt(i) + 4 <= 4096
    ensures SlotOffset(SetU16(p, FREE_AT, free), i) == SlotOffset(p, i)
    ensures SlotLength(SetU16(p, FREE_AT, free), i) == SlotLength(p, i)
  {
    hide U16At;
    hide SetU16;
    SetU16At(p, FREE_AT, free, SlotAt(i), 2);
    SetU16At(p, FREE_AT, free, SlotAt(i) + 2, 2);
  }

  lemma SetFreeHolds(p: Image, ts: seq<Option<seq<Byte>>>)
    requires SlotAt(|ts|) + Used(ts) <= 4096 && ts[..|ts|] == ts
    requires AllHeld(p, ts, |ts|)
    ensures AllHeld(SetU16(p, FREE_AT, 4096 - Used(ts)), ts, |ts|)
  {
    hide U16At;
    hide SetU16;
    hide Used;
    hide Place;
    hide Holds;
    forall i | 0 <= i < |ts| && ts[i].Some? ensures Holds(SetU16(p, FREE_AT, 4096 - Used(ts)), ts, i) {
      SetFreeHold(p, ts, 4096 - Used(ts), i);
    }
  }

  lemma SetFreeHold(p: Image, ts: seq<Option<seq<Byte>>>, free: U16, i: nat)
    requires i < |ts| && ts[i].Some? && ts[..|ts|] == ts && SlotAt(|ts|) + Used(ts) <= 4096 && Holds(p, ts, i)
    ensures Holds(SetU16(p, FREE_AT, free), ts, i)
  {
    hide Used;
    PlaceBounds(ts, i, |ts|);
    hide U16At;
    hide SetU16;
    hide Place;
    FreeIsApart(p, free, Place(ts, i), |ts[i].value|);
  }

  lemma FreeIsApart(p: Image, free: U16, at: nat, n: nat)
    requires HEADER_SIZE <= at && at + n <= 4096
    ensures SetU16(p, FREE_AT, free)[at..at + n] == p[at..at + n]
  {
    hide U16At;
    hide SetU16;
    SetU16At(p, FREE_AT, free, at, n);
  }

  lemma SetFreeHeader(d: Image, base: Image, p: Image, ts: seq<Option<seq<Byte>>>)
    requires Used(ts) <= 4096 && p[..HEADER_SIZE] == base[..HEADER_SIZE] == d[..HEADER_SIZE]
    ensures var c := SetU16(p, FREE_AT, 4096 - Used(ts));
      c[..FREE_AT] == d[..FREE_AT] && c[12..HEADER_SIZE] == d[12..HEADER_SIZE] && FreeOffset(c) == 4096 - Used(ts)
  {
    hide U16At;
    hide SetU16;
    var free := 4096 - Used(ts);
    var c := SetU16(p, FREE_AT, free);
    SetU16At(p, FREE_AT, free, 0, FREE_AT);
    SetU16At(p, FREE_AT, free, 12, 12);
    assert c[0..FREE_AT] == c[..FREE_AT] && p[0..FREE_AT] == p[..HEADER_SIZE][..FREE_AT] &&
      d[..FREE_AT] == d[..HEADER_SIZE][..FREE_AT];
    assert p[12..24] == p[..HEADER_SIZE][12..] && d[12..24] == d[..HEADER_SIZE][12..];
  }

  lemma LiveNonEmpty(d: Image, i: nat)
    requires Wf(d) && i < Count(d)
    ensures Tuples(d)[i].Some? ==> Tuples(d)[i].value != []
  {
    hide U16At;
  }

  lemma SameCount(d: Image, c: Image)
    requires c[..FREE_AT] == d[..FREE_AT]
    ensures Count(c) == Count(d)
  {
    assert c[8] == c[..FREE_AT][8] && c[9] == c[..FREE_AT][9] && d[8] == d[..FREE_AT][8] && d[9] == d[..FREE_AT][9];
  }

  /** Compaction keeps the slot count and every tuple, and leaves all the space that live tuples do not use. */
  lemma CompactKeeps(d: Image)
    requires Wf(d)
    ensures var c := Compacted(d);
      && Wf(c) && Tuples(c) == Tuples(d) && SameHeader(d, c) && AllVisible(c) == AllVisible(d)
      && FreeSpace(c) == 4096 - HEADER_SIZE - SLOT_SIZE * Count(d) - Used(Tuples(d))
  {
    hide Compacted;
    hide U16At;
    hide TupleAt;
    hide Holds;
    CompactedIs(d);
    var c, ts := Compacted(d), Tuples(d);
    SameCount(d, c);
    SameHeaders(d, c);
    CompactWf(d, c, ts);
    CompactTuples(d, c, ts);
  }

  lemma CompactWf(d: Image, c: Image, ts: seq<Option<seq<Byte>>>)
    requires CompactOf(d, ts, c) && Count(c) == |ts|
    ensures Wf(c)
  {
    hide U16At;
    assert ts[..|ts|] == ts;
    forall i | 0 <= i < |ts| && ts[i].Some?
        ensures 4096 - Used(ts) <= Place(ts, i) && Place(ts, i) + |ts[i].value| <= 4096 {
      assert Holds(c, ts, i);
      UsedMonotone(ts, i + 1, |ts|);
    }
    forall i, j | 0 <= i < j < |ts| && ts[i].Some? && ts[j].Some? ensures Place(ts, j) + |ts[j].value| <= Place(ts, i) {
      UsedStep(ts, j);
      UsedMonotone(ts, i + 1, j);
    }
    hide Holds;
    hide Place;
    hide Used;
  }

  lemma SameHeaders(d: Image, c: Image)
    requires c[..FREE_AT] == d[..FREE_AT] && c[12..HEADER_SIZE] == d[12..HEADER_SIZE]
    ensures SameHeader(d, c) && AllVisible(c) == AllVisible(d)
  {
    assert c[..8] == c[..FREE_AT][..8] && d[..8] == d[..FREE_AT][..8];
    assert c[12..22] == c[12..HEADER_SIZE][..10] && d[12..22] == d[12..HEADER_SIZE][..10];
    assert c[23..24] == c[12..HEADER_SIZE][11..] && d[23..24] == d[12..HEADER_SIZE][11..];
    assert c[22] == c[12..HEADER_SIZE][10] && d[22] == d[12..HEADER_SIZE][10];
  }

  lemma CompactTuples(d: Image, c: Image, ts: seq<Option<seq<Byte>>>)
    requires Wf(d) && ts == Tuples(d) && CompactOf(d, ts, c) && Count(c) == Count(d)
    ensures Tuples(c) == ts
  {
    hide U16At;
    forall i | 0 <= i < |ts| ensures TupleAt(c, i) == ts[i] {
      LiveNonEmpty(d, i);
      if ts[i].Some? {
        assert Holds(c, ts, i);
      }
    }
    hide TupleAt;
    assert Tuples(c) == ts;
  }

  lemma U16Bytes(a: Image, c: Image, p: nat)
    requires p + 2 <= 4096 && U16At(a, p) == U16At(c, p)
    ensures a[p..p + 2] == c[p..p + 2]
  {
    var al: int, ah: int, cl: int, ch: int := a[p], a[p + 1], c[p], c[p + 1];
    assert al + 0x100 * ah == cl + 0x100 * ch;
  }

  /** The packed tuples cover the end of the page without a gap. */
  lemma {:induction false} SameData(a: Image, c: Image, ts: seq<Option<seq<Byte>>>, k: nat)
    requires k <= |ts| && Used(ts[..k]) <= 4096
    requires forall i :: 0 <= i < k && ts[i].Some? ==> Holds(a, ts, i) && Holds(c, ts, i)
    ensures a[4096 - Used(ts[..k])..] == c[4096 - Used(ts[..k])..]
    decreases k
  {
    if k > 0 {
      UsedStep(ts, k - 1);
      SameData(a, c, ts, k - 1);
      if ts[k - 1].Some? {
        assert Holds(a, ts, k - 1) && Holds(c, ts, k - 1);
        var at, top := Place(ts, k - 1), 4096 - Used(ts[..k - 1]);
        assert a[at..] == a[at..top] + a[top..] && c[at..] == c[at..top] + c[top..];
      }
    }
  }

  /** Equal slot fields are equal directory bytes. */
  lemma {:induction false} SameSlots(a: Image, c: Image, n: nat)
    requires SlotAt(n) <= 4096
    requires forall i :: 0 <= i < n ==> SlotOffset(a, i) == SlotOffset(c, i) && SlotLength(a, i) == SlotLength(c, i)
    ensures a[HEADER_SIZE..SlotAt(n)] == c[HEADER_SIZE..SlotAt(n)]
  {
    if n > 0 {
      SameSlots(a, c, n - 1);
      assert SlotOffset(a, n - 1) == SlotOffset(c, n - 1);
      var p, q := SlotAt(n - 1), SlotAt(n);
      U16Bytes(a, c, p);
      U16Bytes(a, c, p + 2);
      assert a[HEADER_SIZE..q] == a[HEADER_SIZE..p] + a[p..p + 2] + a[p + 2..p + 4];
      assert c[HEADER_SIZE..q] == c[HEADER_SIZE..p] + c[p..p + 2] + c[p + 2..p + 4];
    }
  }

  /** There is one compacted page for given contents. */
  lemma CompactUnique(d: Image, ts: seq<Option<seq<Byte>>>, a: Image, c: Image)
    requires CompactOf(d, ts, a) && CompactOf(d, ts, c)
    ensures a == c
  {
    hide U16At;
    hide Used;
    hide Holds;
    assert ts[..|ts|] == ts;
    SameSlots(a, c, |ts|);
    SameData(a, c, ts, |ts|);
    U16Bytes(a, c, FREE_AT);
    Pieces(a, SlotAt(|ts|), 4096 - Used(ts));
    Pieces(c, SlotAt(|ts|), 4096 - Used(ts));
  }

  lemma Pieces(a: Image, n: nat, free: nat)
    requires HEADER_SIZE <= n <= free <= 4096
    ensures a == a[..FREE_AT] + a[FREE_AT..FREE_AT + 2] + a[12..HEADER_SIZE] + a[HEADER_SIZE..n] + a[n..free] +
      a[free..]
  {
  }

  lemma CompactSelf(d: Image, ts: seq<Option<seq<Byte>>>, c: Image)
    requires CompactOf(d, ts, c)
    ensures CompactOf(c, ts, c)
  {
    hide Holds;
    hide U16At;
  }

  /** Compacting twice is compacting once: not a byte changes the second time. */
  lemma CompactTwice(d: Image)
    requires Wf(d)
    ensures Wf(Compacted(d)) && Compacted(Compacted(d)) == Compacted(d)
  {
    hide U16At;
    hide Compacted;
    hide CompactOf;
    hide TupleAt;
    CompactKeeps(d);
    CompactedIs(d);
    var c := Compacted(d);
    CompactedIs(c);
    CompactSelf(d, Tuples(d), c);
    CompactUnique(c, Tuples(c), Compacted(c), c);
  }
}
