/** Index keys and entries as bytes, and a tree node as the bytes of one page. */
module KeyCodec {
  import opened Common
  import opened Bytes
  import opened TupleCodec
  import opened SlottedPage
  import opened BTreeShape
  import P = PageBytes
  import BTree

  // ---- keys ----

  /** Text keys have no length prefix, null is no bytes at all, the rest is as in a row. */
  function EncodeKey(v: Field): seq<Byte> {
    match v
    case Varchar(t) => t
    case _ => EncodeField(v)
  }

  function DecodeKey(b: seq<Byte>, t: ColumnType): (r: Result<Field>)
    ensures r.Ok? ==> KeyConforms(r.value, t)
  {
    match t
    case IntCol => if |b| != 4 then Err else Ok(Int(GetI32(b)))
    case VarcharCol => if ValidUtf8(b) then Ok(Varchar(b)) else Err
    case BoolCol => if b == [] then Err else Ok(Bool(b[0] != 0))
    case DoubleCol => if |b| != 8 then Err else Ok(Double(GetU64(b)))
    case TimestampCol => if |b| != 8 then Err else Ok(Timestamp(GetI64(b)))
    case DateCol => if |b| != 4 then Err else Ok(Date(GetI32(b)))
    case TimeCol => if |b| != 8 then Err else Ok(Time(GetI64(b)))
    case IntervalCol =>
      if |b| != 16 then Err else Ok(Interval(GetI32(b[..4]), GetI32(b[4..8]), GetI64(b[8..16])))
  }

  /** A value of the column's type, not null. */
  predicate KeyConforms(v: Field, t: ColumnType) {
    match v
    case Null => false
    case Varchar(s) => t == VarcharCol && ValidUtf8(s)
    case _ => Conforms(v, t)
  }

  /** Exactly the non-null values of the column's type survive as keys. */
  lemma KeyRound(v: Field, t: ColumnType)
    ensures DecodeKey(EncodeKey(v), t) == Ok(v) <==> KeyConforms(v, t)
  {
    hide ValidUtf8;
    hide Le;
    if KeyConforms(v, t) {
      match v {
        case Int(x) => I32Round(x);
        case Varchar(_) =>
        case Bool(_) =>
        case Double(x) => U64Round(x);
        case Timestamp(x) => I64Round(x);
        case Date(x) => I32Round(x);
        case Time(x) => I64Round(x);
        case Interval(m, d, u) =>
          I32Round(m);
          I32Round(d);
          I64Round(u);
          var b := EncodeKey(v);
          assert b[..4] == PutI32(m) && b[4..8] == PutI32(d) && b[8..16] == PutI64(u);
      }
    }
  }

  function SignOf(x: int): int {
    if x < 0 then -1 else if x > 0 then 1 else 0
  }

  /** Byte order, which is the order of valid UTF-8 text. */
  function CompareBytes(a: seq<Byte>, b: seq<Byte>): int {
    if a == [] || b == [] then SignOf(|a| - |b|)
    else if a[0] != b[0] then (if a[0] < b[0] then -1 else 1)
    else CompareBytes(a[1..], b[1..])
  }

  /** Byte `n` is the first at which `a` differs from `b`, by its end or by a smaller byte. */
  ghost predicate FirstDiffers(a: seq<Byte>, b: seq<Byte>, n: nat) {
    n <= |a| && n < |b| && a[..n] == b[..n] && (n == |a| || a[n] < b[n])
  }

  /** Text order is decided by the first byte that differs, and a proper prefix comes first. */
  lemma {:induction false} FirstDifferenceDecides(a: seq<Byte>, b: seq<Byte>)
    ensures CompareBytes(a, b) < 0 <==> exists n: nat :: FirstDiffers(a, b, n)
    ensures CompareBytes(a, b) > 0 <==> exists n: nat :: FirstDiffers(b, a, n)
    ensures CompareBytes(a, b) == 0 <==> a == b
    decreases |a|
  {
    if a != [] && b != [] && a[0] == b[0] {
      FirstDifferenceDecides(a[1..], b[1..]);
      assert a == [a[0]] + a[1..] && b == [b[0]] + b[1..];
      DifferenceShifts(a, b);
      DifferenceShifts(b, a);
    } else {
      assert a == [] && b != [] ==> FirstDiffers(a, b, 0);
      assert b == [] && a != [] ==> FirstDiffers(b, a, 0);
      assert a != [] && b != [] ==> FirstDiffers(a, b, 0) || FirstDiffers(b, a, 0);
      forall n: nat | FirstDiffers(a, b, n) ensures n == 0 {
        AgreeBefore(a, b, n);
      }
      forall n: nat | FirstDiffers(b, a, n) ensures n == 0 {
        AgreeBefore(b, a, n);
      }
    }
  }

  lemma AgreeBefore(a: seq<Byte>, b: seq<Byte>, n: nat)
    requires FirstDiffers(a, b, n)
    ensures n > 0 ==> a != [] && b != [] && a[0] == b[0]
  {
    assert n > 0 ==> a[..n][0] == b[..n][0];
  }

  lemma DifferenceShifts(a: seq<Byte>, b: seq<Byte>)
    requires a != [] && b != [] && a[0] == b[0]
    ensures (exists n: nat :: FirstDiffers(a, b, n)) <==> exists n: nat :: FirstDiffers(a[1..], b[1..], n)
  {
    if n: nat :| FirstDiffers(a[1..], b[1..], n) {
      assert a[..n + 1] == [a[0]] + a[1..][..n] && b[..n + 1] == [b[0]] + b[1..][..n];
      assert FirstDiffers(a, b, n + 1);
    }
    if n: nat :| FirstDiffers(a, b, n) {
      assert n > 0;
      var m := n - 1;
      assert a[1..][..m] == a[..n][1..] && b[1..][..m] == b[..n][1..];
      assert FirstDiffers(a[1..], b[1..], m);
    }
  }

  predicate Numeric(t: ColumnType) {
    t.IntCol? || t.BoolCol? || t.TimestampCol? || t.DateCol? || t.TimeCol?
  }

  /** The number a fixed-width key stands for in the tree. */
  function Number(v: Field): int {
    match v
    case Int(x) => x
    case Bool(f) => if f then 1 else 0
    case Timestamp(x) => x
    case Date(x) => x
    case Time(x) => x
    case _ => 0
  }

  /** `compare_keys`, but for doubles: both keys are decoded and compared as values; intervals do not compare. */
  function CompareKeys(a: seq<Byte>, b: seq<Byte>, t: ColumnType): Result<int>
    requires t != DoubleCol
  {
    match DecodeKey(a, t)
    case Err => Err
    case Ok(x) =>
      match DecodeKey(b, t)
      case Err => Err
      case Ok(y) =>
        if x.Varchar? && y.Varchar? then Ok(CompareBytes(x.text, y.text))
        else if Numeric(t) then Ok(SignOf(Number(x) - Number(y)))
        else Err
  }

  /** Comparing encoded keys is comparing the values. */
  lemma CompareIsOrder(x: Field, y: Field, t: ColumnType)
    requires KeyConforms(x, t) && KeyConforms(y, t) && t != DoubleCol
    ensures CompareKeys(EncodeKey(x), EncodeKey(y), t) ==
      match t
      case VarcharCol => Ok(CompareBytes(x.text, y.text))
      case IntervalCol => Err
      case _ => Ok(SignOf(Number(x) - Number(y)))
  {
    hide EncodeKey;
    hide DecodeKey;
    hide ValidUtf8;
    KeyRound(x, t);
    KeyRound(y, t);
  }

  /** Comparing keys, in terms of the values that were stored: numbers by size, false before true, text by its first
      difference. */
  lemma KeysCompare(x: Field, y: Field, t: ColumnType)
    requires KeyConforms(x, t) && KeyConforms(y, t) && t != DoubleCol && t != IntervalCol
    ensures var c := CompareKeys(EncodeKey(x), EncodeKey(y), t);
      && c.Ok?
      && (c.value < 0 <==> Smaller(x, y)) && (c.value > 0 <==> Smaller(y, x)) && (c.value == 0 <==> x == y)
  {
    CompareIsOrder(x, y, t);
    if t == VarcharCol {
      FirstDifferenceDecides(x.text, y.text);
    }
  }

  ghost predicate Smaller(x: Field, y: Field) {
    match (x, y)
    case (Int(a), Int(b)) => a < b
    case (Bool(a), Bool(b)) => !a && b
    case (Varchar(a), Varchar(b)) => exists n: nat :: FirstDiffers(a, b, n)
    case (Timestamp(a), Timestamp(b)) => a < b
    case (Date(a), Date(b)) => a < b
    case (Time(a), Time(b)) => a < b
    case _ => false
  }

  function Width(t: ColumnType): (w: nat)
    ensures w <= BTree.MAX_KEY_LEN
  {
    if t.BoolCol? then 1 else if t.IntCol? || t.DateCol? then 4 else 8
  }

  /** Fixed-width keys are numbers: of one length, inside the range of the tree, and equal only when the values are. */
  lemma NumericKeys(x: Field, y: Field, t: ColumnType)
    requires Numeric(t) && KeyConforms(x, t) && KeyConforms(y, t)
    ensures |EncodeKey(x)| == Width(t) && LOWEST <= Number(x) < HIGHEST
    ensures Number(x) == Number(y) <==> EncodeKey(x) == EncodeKey(y)
    ensures Number(x) == Number(y) <==> x == y
  {
    hide ValidUtf8;
    hide Le;
    KeyRound(x, t);
    KeyRound(y, t);
  }

  lemma {:induction false} TextOrder(a: seq<Byte>, b: seq<Byte>, c: seq<Byte>)
    ensures CompareBytes(a, b) == 0 <==> a == b
    ensures CompareBytes(b, a) == -CompareBytes(a, b)
    ensures CompareBytes(a, b) < 0 && CompareBytes(b, c) < 0 ==> CompareBytes(a, c) < 0
  {
    if a != [] && b != [] && a[0] == b[0] {
      TextOrder(a[1..], b[1..], if c == [] then [] else c[1..]);
      assert a == [a[0]] + a[1..] && b == [b[0]] + b[1..];
    }
  }

  /** A null key is no key of a fixed-width column, and in a text column it is the empty text: it sorts before
      every other text, not last. */
  lemma NullSortsFirst(t: ColumnType, s: seq<Byte>)
    requires ValidUtf8(s)
    ensures DecodeKey(EncodeKey(Null), t) == if t == VarcharCol then Ok(Varchar([])) else Err
    ensures CompareKeys(EncodeKey(Null), EncodeKey(Varchar(s)), VarcharCol) == Ok(if s == [] then 0 else -1)
  {
  }

  // ---- entries ----

  function EncodeLeafEntry(key: seq<Byte>, page: U32, slot: U16): seq<Byte> {
    Le(|key| % 0x1_0000, 2) + key + Le(page, 4) + Le(slot, 2)
  }

  /** `decode_leaf_entry`, which panics on bytes that are too short. */
  function DecodeLeafEntry(b: seq<Byte>): Result<(seq<Byte>, U32, U16)> {
    if |b| < 2 then Err else
      var n: int := GetU16(b[..2]);
      if |b| < n + 8 then Err else Ok((b[2..2 + n], GetU32(b[2 + n..6 + n]), GetU16(b[6 + n..8 + n])))
  }

  lemma LeafEntryRound(key: seq<Byte>, page: U32, slot: U16)
    ensures |EncodeLeafEntry(key, page, slot)| == BTree.LeafEntryLen(|key|)
    ensures DecodeLeafEntry(EncodeLeafEntry(key, page, slot)) == Ok((key, page, slot)) <==> |key| < 0x1_0000
  {
    hide Le;
    var b := EncodeLeafEntry(key, page, slot);
    U16Round(|key| % 0x1_0000);
    assert b[..2] == Le(|key| % 0x1_0000, 2);
    if |key| < 0x1_0000 {
      var n := |key|;
      U32Round(page);
      U16Round(slot);
      assert b[2..2 + n] == key && b[2 + n..6 + n] == Le(page, 4) && b[6 + n..8 + n] == Le(slot, 2);
    }
  }

  function EncodeInternalEntry(key: seq<Byte>, child: U32): seq<Byte> {
    Le(|key| % 0x1_0000, 2) + key + Le(child, 4)
  }

  function DecodeInternalEntry(b: seq<Byte>): Result<(seq<Byte>, U32)> {
    if |b| < 2 then Err else
      var n: int := GetU16(b[..2]);
      if |b| < n + 6 then Err else Ok((b[2..2 + n], GetU32(b[2 + n..6 + n])))
  }

  lemma InternalEntryRound(key: seq<Byte>, child: U32)
    ensures |EncodeInternalEntry(key, child)| == BTree.InnerEntryLen(|key|)
    ensures DecodeInternalEntry(EncodeInternalEntry(key, child)) == Ok((key, child)) <==> |key| < 0x1_0000
  {
    hide Le;
    var b := EncodeInternalEntry(key, child);
    U16Round(|key| % 0x1_0000);
    assert b[..2] == Le(|key| % 0x1_0000, 2);
    if |key| < 0x1_0000 {
      var n := |key|;
      U32Round(child);
      assert b[2..2 + n] == key && b[2 + n..6 + n] == Le(child, 4);
    }
  }

  // ---- nodes ----

  /** Numbers that are keys of the type. */
  predicate InType(k: int, t: ColumnType) {
    match t
    case IntCol => -0x8000_0000 <= k < 0x8000_0000
    case DateCol => -0x8000_0000 <= k < 0x8000_0000
    case BoolCol => 0 <= k < 2
    case TimestampCol => -0x8000_0000_0000_0000 <= k < 0x8000_0000_0000_0000
    case TimeCol => -0x8000_0000_0000_0000 <= k < 0x8000_0000_0000_0000
    case _ => false
  }

  function FromNumber(k: int, t: ColumnType): (v: Field)
    requires InType(k, t)
    ensures Number(v) == k && Numeric(t) && KeyConforms(v, t)
  {
    match t
    case IntCol => Int(k)
    case DateCol => Date(k)
    case BoolCol => Bool(k == 1)
    case TimestampCol => Timestamp(k)
    case TimeCol => Time(k)
  }

  /** They are exactly the numbers that values of the type stand for. */
  lemma InTypeExactly(k: int, t: ColumnType)
    ensures InType(k, t) <==> exists v: Field :: Numeric(t) && KeyConforms(v, t) && Number(v) == k
  {
    if InType(k, t) {
      var v := FromNumber(k, t);
    }
  }

  predicate Storable(c: Cell<Rid>, t: ColumnType) {
    InType(c.key, t) && c.val.page < 0x1_0000_0000 && c.val.slot < 0x1_0000
  }

  function RowEntry(c: Cell<Rid>, t: ColumnType): seq<Byte>
    requires Storable(c, t)
  {
    EncodeLeafEntry(EncodeKey(FromNumber(c.key, t)), c.val.page, c.val.slot)
  }

  /** An entry's bytes as the row of a tree leaf. */
  function ReadEntry(b: seq<Byte>, t: ColumnType): Result<Cell<Rid>> {
    match DecodeLeafEntry(b)
    case Err => Err
    case Ok(e) =>
      match DecodeKey(e.0, t)
      case Err => Err
      case Ok(v) => Ok(Cell(Number(v), Rid(e.1, e.2)))
  }

  lemma RowEntryRound(c: Cell<Rid>, t: ColumnType)
    requires Storable(c, t)
    ensures ReadEntry(RowEntry(c, t), t) == Ok(c) && |RowEntry(c, t)| == BTree.LeafEntryLen(Width(t))
  {
    hide EncodeKey;
    hide DecodeKey;
    hide EncodeLeafEntry;
    hide DecodeLeafEntry;
    var v := FromNumber(c.key, t);
    NumericKeys(v, v, t);
    KeyRound(v, t);
    LeafEntryRound(EncodeKey(v), c.val.page, c.val.slot);
  }

  const BTREE_LEAF: Byte := 1
  const KIND_AT := 20
  const NEXT_AT := 4

  /** The room that entries with their slots take. */
  function Total(entries: seq<seq<Byte>>): nat {
    if entries == [] then 0 else Total(entries[..|entries| - 1]) + |entries[|entries| - 1]| + P.SLOT_SIZE
  }

  function Live(entries: seq<seq<Byte>>): (ts: seq<Option<seq<Byte>>>)
    ensures |ts| == |entries| && forall i :: 0 <= i < |ts| ==> ts[i] == Some(entries[i])
  {
    if entries == [] then [] else Live(entries[..|entries| - 1]) + [Some(entries[|entries| - 1])]
  }

  lemma {:induction false} TotalGrows(entries: seq<seq<Byte>>, k: nat)
    requires k <= |entries|
    ensures Total(entries[..k]) <= Total(entries)
    decreases |entries| - k
  {
    if k < |entries| {
      assert entries[..k + 1][..k] == entries[..k];
      TotalGrows(entries, k + 1);
    } else {
      assert entries[..k] == entries;
    }
  }

  lemma {:induction false} TotalOfEqual(entries: seq<seq<Byte>>, len: nat)
    requires forall i :: 0 <= i < |entries| ==> |entries[i]| == len
    ensures Total(entries) == |entries| * (len + P.SLOT_SIZE)
  {
    if entries != [] {
      TotalOfEqual(entries[..|entries| - 1], len);
    }
  }

  predicate Blank(d: P.Image) { P.Count(d) == 0 && P.FreeOffset(d) == 4096 }

  lemma BlankIsEmpty(d: P.Image)
    ensures Blank(d) <==> P.Wf(d) && P.Tuples(d) == [] && P.FreeSpace(d) == 4072
  {
    hide P.U16At;
  }

  /** Header fields are apart from the directory. */
  lemma HeaderWrite(d: P.Image, p: nat, b: seq<Byte>)
    requires Blank(d) && (p + |b| <= 8 || (12 <= p && p + |b| <= 24))
    ensures Blank(P.Splice(d, p, b)) && P.Splice(d, p, b)[p..p + |b|] == b
  {
    hide P.Splice;
    hide P.U16At;
    P.SpliceAt(d, p, b, P.COUNT_AT, 2);
    P.SpliceAt(d, p, b, P.FREE_AT, 2);
  }

  ghost predicate NodeHeader(d: P.Image, kind: Byte, next: U32, lsn: U64) {
    d[KIND_AT..21] == [kind] && d[NEXT_AT..8] == Le(next, 4) && d[P.LSN_AT..KIND_AT] == Le(lsn, 8)
  }

  method FreshNode(id: U32, kind: Byte, next: U32, lsn: U64) returns (page: Page)
    ensures page.Valid() && fresh(page) && fresh(page.data) && page.Contents() == []
    ensures P.FreeSpace(page.Bytes()) == 4072 && NodeHeader(page.Bytes(), kind, next, lsn)
  {
    hide P.Wf;
    hide P.Splice;
    hide P.Tuples;
    hide P.FreeSpace;
    hide P.Fresh;
    hide Blank;
    hide Le;
    page := new Page(id);
    ghost var d0 := page.Bytes();
    BlankIsEmpty(d0);
    HeaderWrite(d0, KIND_AT, [kind]);
    page.Put(KIND_AT, [kind]);
    ghost var d1 := page.Bytes();
    HeaderWrite(d1, NEXT_AT, Le(next, 4));
    page.Put(NEXT_AT, Le(next, 4));
    ghost var d2 := page.Bytes();
    HeaderWrite(d2, P.LSN_AT, Le(lsn, 8));
    page.Put(P.LSN_AT, Le(lsn, 8));
    BlankIsEmpty(page.Bytes());
    P.SpliceAt(d1, NEXT_AT, Le(next, 4), KIND_AT, 1);
    P.SpliceAt(d2, P.LSN_AT, Le(lsn, 8), KIND_AT, 1);
    P.SpliceAt(d2, P.LSN_AT, Le(lsn, 8), NEXT_AT, 4);
  }

  lemma HeaderStays(d: P.Image, r: P.Image, kind: Byte, next: U32, lsn: U64)
    requires P.SameHeader(d, r) && NodeHeader(d, kind, next, lsn)
    ensures NodeHeader(r, kind, next, lsn)
  {
    hide Le;
    assert r[NEXT_AT..8] == r[..8][NEXT_AT..] && d[NEXT_AT..8] == d[..8][NEXT_AT..];
    assert r[P.LSN_AT..KIND_AT] == r[12..22][..8] && d[P.LSN_AT..KIND_AT] == d[12..22][..8];
    assert d[KIND_AT] == d[12..22][8];
    assert r[KIND_AT] == r[12..22][8];
  }

  /** A node rewritten from scratch: a new page under the old id, kind, link and LSN, and the entries in order.
      It fails just when they do not fit a page. */
  method RebuildNode(id: U32, kind: Byte, next: U32, lsn: U64, entries: seq<seq<Byte>>) returns (r: Result<Page>)
    requires forall e :: e in entries ==> e != []
    ensures r.Ok? <==> Total(entries) <= 4072
    ensures r.Ok? ==> fresh(r.value) && fresh(r.value.data) && r.value.Valid() && r.value.Contents() == Live(entries)
    ensures r.Ok? ==> P.FreeSpace(r.value.Bytes()) == 4072 - Total(entries)
    ensures r.Ok? ==> NodeHeader(r.value.Bytes(), kind, next, lsn)
  {
    hide P.Wf;
    hide P.Tuples;
    hide P.FreeSpace;
    hide P.SameHeader;
    hide NodeHeader;
    var page := FreshNode(id, kind, next, lsn);
    var i := 0;
    while i < |entries|
      invariant 0 <= i <= |entries| && page.Valid() && fresh(page.data) && Total(entries[..i]) <= 4072
      invariant page.Contents() == Live(entries[..i]) && P.FreeSpace(page.Bytes()) == 4072 - Total(entries[..i])
      invariant NodeHeader(page.Bytes(), kind, next, lsn)
    {
      assert entries[..i + 1][..i] == entries[..i] && entries[i] in entries;
      TotalGrows(entries, i + 1);
      ghost var before := page.Bytes();
      var slot := page.Insert(entries[i]);
      if slot.Err? {
        return Err;
      }
      HeaderStays(before, page.Bytes(), kind, next, lsn);
      i := i + 1;
    }
    assert entries[..i] == entries;
    r := Ok(page);
  }

  /** A leaf of the tree fits its page just when it is within the tree's limit, leaves the room the tree counts
      on, and is read back from the page slot by slot. */
  method StoreLeaf(id: U32, next: U32, lsn: U64, rows: seq<Cell<Rid>>, t: ColumnType) returns (r: Result<Page>)
    requires forall c :: c in rows ==> Storable(c, t)
    ensures r.Ok? <==> |rows| <= BTree.LimitsFor(Width(t)).leaf
    ensures r.Ok? ==> r.value.Valid() && |r.value.Contents()| == |rows|
    ensures r.Ok? ==> forall i :: 0 <= i < |rows| ==>
      r.value.Contents()[i].Some? && ReadEntry(r.value.Contents()[i].value, t) == Ok(rows[i])
    ensures r.Ok? ==> P.FreeSpace(r.value.Bytes()) == BTree.FreeSpace(|rows|, BTree.LeafEntryLen(Width(t)))
    ensures r.Ok? ==> NodeHeader(r.value.Bytes(), BTREE_LEAF, next, lsn)
  {
    hide NodeHeader;
    hide ReadEntry;
    hide RowEntry;
    hide Total;
    hide Storable;
    var entries := [];
    var i := 0;
    while i < |rows|
      invariant 0 <= i <= |rows| && |entries| == i
      invariant forall k :: 0 <= k < i ==>
        ReadEntry(entries[k], t) == Ok(rows[k]) && |entries[k]| == BTree.LeafEntryLen(Width(t))
    {
      assert rows[i] in rows;
      RowEntryRound(rows[i], t);
      entries := entries + [RowEntry(rows[i], t)];
      i := i + 1;
    }
    TotalOfEqual(entries, BTree.LeafEntryLen(Width(t)));
    LimitIsFit(|rows|, BTree.LeafEntryLen(Width(t)));
    r := RebuildNode(id, BTREE_LEAF, next, lsn, entries);
  }

  lemma LimitIsFit(count: nat, len: nat)
    ensures count * (len + P.SLOT_SIZE) <= 4072 <==>
      count <= (BTree.PAGE_SIZE - BTree.HEADER_SIZE) / (len + BTree.SLOT_SIZE)
  {
    if count > 0 {
      BTree.HasRoomIff(count - 1, len);
      assert (count - 1) * (len + 4) + (len + 4) == count * (len + 4);
    }
  }
}
