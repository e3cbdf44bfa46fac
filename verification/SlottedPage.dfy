/** The page object: 4096 bytes edited in place. */
module SlottedPage {
  import opened Common
  import opened Bytes
  import opened PageBytes

  const MVCC_HEADER_SIZE := 22
  const XMAX_AT := 8
  const CTID_PAGE_AT := 16
  const CTID_SLOT_AT := 20

  /** A tuple with new bytes at an offset. */
  function Patched(t: seq<Byte>, at: nat, b: seq<Byte>): seq<Byte>
    requires at + |b| <= |t|
  {
    t[..at] + b + t[at + |b|..]
  }

  class Page {
    const data: array<Byte>

    ghost predicate Sized()
      reads this
    {
      data.Length == 4096
    }

    ghost function Bytes(): Image
      requires Sized()
      reads this, data
    {
      data[..]
    }

    ghost predicate Valid()
      reads this, data
    {
      Sized() && Wf(Bytes())
    }

    /** What the slots hold. */
    ghost function Contents(): seq<Option<seq<Byte>>>
      requires Valid()
      reads this, data
    {
      Tuples(Bytes())
    }

    constructor (id: U32)
      ensures Valid() && fresh(data) && Contents() == [] && FreeSpace(Bytes()) == 4072
      ensures Bytes() == Fresh(id)
    {
      data := new Byte[4096](i => 0);
      new;
      assert data[..] == seq(4096, i => 0);
      Put(0, Le(id, 4));
      Put(4, Le(NO_NEXT_PAGE, 4));
      PutU16(COUNT_AT, 0);
      PutU16(FREE_AT, 4096);
      FreshIsEmpty(id);
    }

    /** Copies bytes into the page. */
    method Put(p: nat, b: seq<Byte>)
      requires Sized() && p + |b| <= 4096
      modifies data
      ensures Bytes() == Splice(old(Bytes()), p, b)
    {
      var i := 0;
      while i < |b|
        invariant 0 <= i <= |b| && data[..] == Splice(old(data[..]), p, b[..i])
      {
        data[p + i] := b[i];
        i := i + 1;
      }
      assert b[..i] == b;
    }

    method PutU16(p: nat, x: U16)
      requires Sized() && p + 2 <= 4096
      modifies data
      ensures Bytes() == SetU16(old(Bytes()), p, x)
    {
      data[p] := x % 0x100;
      data[p + 1] := x / 0x100;
    }

    method GetField(p: nat) returns (x: U16)
      requires Sized() && p + 2 <= 4096
      ensures x == U16At(Bytes(), p)
    {
      var low: int, high: int := data[p], data[p + 1];
      x := low + 0x100 * high;
    }

    method TupleCount() returns (n: U16)
      requires Sized()
      ensures n == Count(Bytes())
    {
      n := GetField(COUNT_AT);
    }

    method FreeBytes() returns (n: nat)
      requires Sized()
      ensures n == FreeSpace(Bytes())
    {
      var count := TupleCount();
      var free := GetField(FREE_AT);
      n := if free < SlotAt(count) then 0 else free - SlotAt(count);
    }

    method PutSlot(i: nat, off: U16, len: U16)
      requires Sized() && SlotAt(i) + 4 <= 4096
      modifies data
      ensures Bytes() == WriteSlot(old(Bytes()), i, off, len)
    {
      PutU16(SlotAt(i), off);
      PutU16(SlotAt(i) + 2, len);
    }

    /** Adds a tuple in a new slot, or fails and changes nothing when it does not fit with its slot. */
    method Insert(t: seq<Byte>) returns (r: Result<nat>)
      requires Valid()
      modifies data
      ensures Valid() && SameHeader(old(Bytes()), Bytes())
      ensures r.Ok? <==> old(FreeSpace(Bytes())) >= |t| + SLOT_SIZE
      ensures r.Ok? <==> HEADER_SIZE + SLOT_SIZE * (|old(Contents())| + 1) + |t| <= FreeOffset(old(Bytes()))
      ensures r.Err? ==> Bytes() == old(Bytes())
      ensures r.Ok? ==> r.value == |old(Contents())| && !AllVisible(Bytes())
      ensures r.Ok? ==> Contents() == old(Contents()) + [if t == [] then None else Some(t)]
      ensures r.Ok? ==> FreeSpace(Bytes()) == old(FreeSpace(Bytes())) - |t| - SLOT_SIZE
    {
      hide U16At;
      hide Splice;
      hide SetU16;
      hide TupleAt;
      hide Wf;
      ghost var before := Bytes();
      WfBounds(before);
      var free := FreeBytes();
      if free < |t| + SLOT_SIZE {
        return Err;
      }
      InsertKeeps(before, t);
      var off := GetField(FREE_AT);
      var n := TupleCount();
      Put(off - |t|, t);
      PutSlot(n, off - |t|, |t|);
      PutU16(COUNT_AT, n + 1);
      PutU16(FREE_AT, off - |t|);
      data[VISIBLE_AT] := 0;
      assert Bytes() == Inserted(before, t);
      r := Ok(n);
    }

    /** A slot out of range and a tombstone have no tuple. */
    method GetTuple(slot: nat) returns (t: Option<seq<Byte>>)
      requires Valid()
      ensures t == if slot < |Contents()| then Contents()[slot] else None
    {
      WfBounds(Bytes());
      var n := TupleCount();
      if slot >= n {
        return None;
      }
      LiveIffLong(Bytes(), slot);
      var off: int := GetField(SlotAt(slot));
      var len: int := GetField(SlotAt(slot) + 2);
      if len == 0 {
        return None;
      }
      SlotInside(Bytes(), slot);
      t := Some(data[off..off + len]);
    }

    /** Turns a live slot into a tombstone. */
    method Delete(slot: nat) returns (ok: bool)
      requires Valid()
      modifies data
      ensures Valid() && ok == (slot < |old(Contents())| && old(Contents())[slot].Some?)
      ensures !ok ==> Bytes() == old(Bytes())
      ensures ok ==> Contents() == old(Contents())[slot := None] && FreeSpace(Bytes()) == old(FreeSpace(Bytes()))
      ensures Bytes()[..HEADER_SIZE] == old(Bytes())[..HEADER_SIZE]
    {
      hide U16At;
      hide SetU16;
      ghost var before := Bytes();
      WfBounds(before);
      var n := TupleCount();
      if slot >= n {
        return false;
      }
      LiveIffLong(before, slot);
      var off := GetField(SlotAt(slot));
      var len := GetField(SlotAt(slot) + 2);
      if len == 0 {
        return false;
      }
      DeleteKeeps(before, slot);
      PutSlot(slot, off, 0);
      ok := true;
    }

    /** Names the deleter of a tuple with an MVCC header: of the whole page only its xmax field changes, and the
        all-visible bit is cleared. */
    method SetTupleXmax(slot: nat, xmax: U64) returns (ok: bool)
      requires Valid()
      modifies data
      ensures Valid() && ok ==
        (slot < |old(Contents())| && old(Contents())[slot].Some? && |old(Contents())[slot].value| >= 16)
      ensures !ok ==> Bytes() == old(Bytes())
      ensures ok ==>
        Contents() == old(Contents())[slot := Some(Patched(old(Contents())[slot].value, XMAX_AT, Le(xmax, 8)))]
      ensures ok ==> !AllVisible(Bytes()) && SameHeader(old(Bytes()), Bytes())
      ensures FreeSpace(Bytes()) == old(FreeSpace(Bytes()))
    {
      hide U16At;
      hide Splice;
      hide TupleAt;
      hide Wf;
      hide Le;
      ghost var before := Bytes();
      WfBounds(before);
      var n := TupleCount();
      if slot >= n {
        return false;
      }
      LiveIffLong(before, slot);
      var off := GetField(SlotAt(slot));
      var len := GetField(SlotAt(slot) + 2);
      if len < 16 {
        return false;
      }
      SlotInside(before, slot);
      PatchKeeps(before, slot, XMAX_AT, Le(xmax, 8));
      Put(off + XMAX_AT, Le(xmax, 8));
      ClearVisible(before, Bytes());
      data[VISIBLE_AT] := 0;
      ok := true;
    }

    /** Points an old version at its successor: of the whole page only that tuple's pointer changes. */
    method SetTupleCtid(slot: nat, page: U32, to: U16) returns (ok: bool)
      requires Valid()
      modifies data
      ensures Valid()
      ensures ok == (slot < |old(Contents())| && old(Contents())[slot].Some? &&
        |old(Contents())[slot].value| >= MVCC_HEADER_SIZE)
      ensures !ok ==> Bytes() == old(Bytes())
      ensures ok ==> Contents() == old(Contents())[slot :=
        Some(Patched(Patched(old(Contents())[slot].value, CTID_PAGE_AT, Le(page, 4)), CTID_SLOT_AT, Le(to, 2)))]
      ensures Bytes()[..HEADER_SIZE] == old(Bytes())[..HEADER_SIZE]
    {
      hide U16At;
      hide Splice;
      hide TupleAt;
      hide Wf;
      hide Le;
      ghost var before := Bytes();
      WfBounds(before);
      var n := TupleCount();
      if slot >= n {
        return false;
      }
      LiveIffLong(before, slot);
      var off := GetField(SlotAt(slot));
      var len := GetField(SlotAt(slot) + 2);
      if len < MVCC_HEADER_SIZE {
        return false;
      }
      SlotInside(before, slot);
      PatchKeeps(before, slot, CTID_PAGE_AT, Le(page, 4));
      Put(off + CTID_PAGE_AT, Le(page, 4));
      ghost var mid := Bytes();
      PatchKeeps(mid, slot, CTID_SLOT_AT, Le(to, 2));
      Put(off + CTID_SLOT_AT, Le(to, 2));
      ok := true;
    }

    /** Repacks the live tuples against the end of the page; slot numbers and tuples stay as they are. */
    method VacuumCompact()
      requires Valid()
      modifies data
      ensures Valid() && Bytes() == Compacted(old(Bytes())) && Contents() == old(Contents())
      ensures FreeSpace(Bytes()) == 4096 - HEADER_SIZE - SLOT_SIZE * |Contents()| - Used(Contents())
      ensures SameHeader(old(Bytes()), Bytes()) && AllVisible(Bytes()) == old(AllVisible(Bytes()))
    {
      hide U16At;
      hide Splice;
      hide SetU16;
      hide TupleAt;
      hide Used;
      hide Wf;
      ghost var d := Bytes();
      WfBounds(d);
      CompactKeeps(d);
      CompactBounds(d);
      ghost var ts := Tuples(d);
      var n := TupleCount();
      var live: seq<Option<seq<Byte>>> := [];
      var slot := 0;
      while slot < n
        invariant 0 <= slot <= n && Bytes() == d && live == ts[..slot]
      {
        var t := GetTuple(slot);
        live := live + [t];
        slot := slot + 1;
      }
      assert live == ts;
      slot := 0;
      while slot < n
        invariant 0 <= slot <= n && Bytes() == Cleared(d, slot)
      {
        PutSlot(slot, 0, 0);
        slot := slot + 1;
      }
      ghost var base := Bytes();
      var free := 4096;
      slot := 0;
      PackedNone(base, ts);
      while slot < n
        invariant 0 <= slot <= n && free == 4096 - Used(ts[..slot]) && SlotAt(|ts|) + Used(ts[..slot]) <= 4096
        invariant Bytes() == Packed(base, ts, slot)
      {
        UsedFits(ts, slot + 1);
        UsedStep(ts, slot);
        PackedNext(base, ts, slot);
        match live[slot] {
          case None =>
          case Some(b) =>
            free := free - |b|;
            Put(free, b);
            PutSlot(slot, free, |b|);
        }
        slot := slot + 1;
      }
      PutU16(FREE_AT, free);
      CompactedDone(d, base, ts);
    }

    method IsEmpty() returns (empty: bool)
      requires Valid()
      ensures empty <==> forall i :: 0 <= i < |Contents()| ==> Contents()[i] == None
    {
      WfBounds(Bytes());
      var n := TupleCount();
      var slot := 0;
      while slot < n
        invariant 0 <= slot <= n && forall i :: 0 <= i < slot ==> Contents()[i] == None
      {
        LiveIffLong(Bytes(), slot);
        var len := GetField(SlotAt(slot) + 2);
        if len != 0 {
          assert Contents()[slot] != None;
          return false;
        }
        slot := slot + 1;
      }
      empty := true;
    }
  }

  lemma WfBounds(d: Image)
    requires Wf(d)
    ensures SlotAt(Count(d)) <= FreeOffset(d) <= 4096
  {
  }

  lemma LiveIffLong(d: Image, i: nat)
    requires Wf(d) && i < Count(d)
    ensures SlotLength(d, i) > 0 <==> Tuples(d)[i].Some?
    ensures Tuples(d)[i].Some? ==> |Tuples(d)[i].value| == SlotLength(d, i)
  {
    hide U16At;
  }

  lemma SlotInside(d: Image, i: nat)
    requires Wf(d) && i < Count(d) && SlotLength(d, i) > 0
    ensures HEADER_SIZE <= SlotOffset(d, i) && SlotOffset(d, i) + SlotLength(d, i) <= 4096
  {
    hide U16At;
  }

  /** The all-visible byte is neither a field of the directory nor in a tuple. */
  lemma ClearVisible(before: Image, d: Image)
    requires Wf(d) && d[..HEADER_SIZE] == before[..HEADER_SIZE]
    ensures var r := d[VISIBLE_AT := 0];
      Wf(r) && Tuples(r) == Tuples(d) && !AllVisible(r) && SameHeader(before, r) && FreeSpace(r) == FreeSpace(d)
  {
    var r := d[VISIBLE_AT := 0];
    forall q | 0 <= q && q + 2 <= 4096 && (q + 2 <= VISIBLE_AT || VISIBLE_AT < q) ensures U16At(r, q) == U16At(d, q) {
    }
    HeaderParts(before, d, r);
    hide U16At;
    assert U16At(r, COUNT_AT) == U16At(d, COUNT_AT) && U16At(r, FREE_AT) == U16At(d, FREE_AT);
    forall i | 0 <= i < Count(d) ensures SlotOffset(r, i) == SlotOffset(d, i) && SlotLength(r, i) == SlotLength(d, i) {
      assert U16At(r, SlotAt(i)) == U16At(d, SlotAt(i)) && U16At(r, SlotAt(i) + 2) == U16At(d, SlotAt(i) + 2);
    }
    assert r[FreeOffset(d)..] == d[FreeOffset(d)..];
    forall i | 0 <= i < Count(d) ensures TupleAt(r, i) == TupleAt(d, i) {
      SameTuple(d, r, FreeOffset(d), i);
    }
    hide TupleAt;
    assert Tuples(r) == Tuples(d);
  }

  lemma HeaderParts(before: Image, d: Image, r: Image)
    requires d[..HEADER_SIZE] == before[..HEADER_SIZE] && r == d[VISIBLE_AT := 0]
    ensures SameHeader(before, r) && !AllVisible(r)
  {
    assert d[..8] == d[..HEADER_SIZE][..8] && before[..8] == before[..HEADER_SIZE][..8] && r[..8] == d[..8];
    assert d[12..22] == d[..HEADER_SIZE][12..22] && before[12..22] == before[..HEADER_SIZE][12..22] &&
      r[12..22] == d[12..22];
    assert d[23..24] == d[..HEADER_SIZE][23..24] && before[23..24] == before[..HEADER_SIZE][23..24] &&
      r[23..24] == d[23..24];
  }

  lemma CompactBounds(d: Image)
    requires Wf(d)
    ensures SlotAt(Count(d)) + Used(Tuples(d)) <= 4096
  {
    hide U16At;
    LiveFit(d, Count(d), FreeOffset(d));
    assert Tuples(d)[..Count(d)] == Tuples(d);
  }

  lemma UsedFits(ts: seq<Option<seq<Byte>>>, k: nat)
    requires k <= |ts| && SlotAt(|ts|) + Used(ts) <= 4096
    ensures SlotAt(|ts|) + Used(ts[..k]) <= 4096
  {
    assert ts[..|ts|] == ts;
    UsedMonotone(ts, k, |ts|);
  }

  lemma PackedNone(base: Image, ts: seq<Option<seq<Byte>>>)
    requires SlotAt(|ts|) + Used(ts) <= 4096
    ensures Used(ts[..0]) == 0 && Packed(base, ts, 0) == base
  {
  }

  lemma PackedNext(base: Image, ts: seq<Option<seq<Byte>>>, k: nat)
    requires k < |ts| && Used(ts[..k]) <= Used(ts[..k + 1]) && SlotAt(|ts|) + Used(ts[..k + 1]) <= 4096
    requires Used(ts[..k + 1]) == Used(ts[..k]) + match ts[k] case None => 0 case Some(b) => |b|
    ensures Packed(base, ts, k + 1) ==
      match ts[k]
      case None => Packed(base, ts, k)
      case Some(b) => WriteSlot(Splice(Packed(base, ts, k), Place(ts, k), b), k, Place(ts, k), |b|)
  {
    hide WriteSlot;
    hide Splice;
  }

  lemma CompactedDone(d: Image, base: Image, ts: seq<Option<seq<Byte>>>)
    requires Wf(d) && ts == Tuples(d) && base == Cleared(d, Count(d)) && SlotAt(|ts|) + Used(ts) <= 4096
    ensures ts[..|ts|] == ts && SetU16(Packed(base, ts, |ts|), FREE_AT, 4096 - Used(ts)) == Compacted(d)
  {
    hide U16At;
    hide SetU16;
    assert ts[..|ts|] == ts;
  }
}
