/** The byte form of log records: ten kinds, each with its own payload. */
module WalCodec {
  import opened Common
  import opened Bytes

  datatype RowId = RowId(page: U32, slot: U16)

  datatype ClrRedo = UndoInsert(rid: RowId) | UndoDelete(rid: RowId, oldXmax: U64)

  /** The dirty page table is keyed by page ids, which are 32 bits wide. */
  datatype Kind =
    | Begin
    | Commit
    | Abort
    | Insert(rid: RowId, data: seq<Byte>)
    | Delete(rid: RowId, xmax: U64)
    | Clr(undoNext: U64, redo: ClrRedo)
    | Checkpoint(att: map<U64, U64>, dpt: map<U32, U64>)
    | IndexInsert(indexId: U64, key: seq<Byte>, rid: RowId)
    | SequenceAdvance(page: U32, value: I64)
    | PageInit(page: U32, pageKind: Byte)

  datatype Record = Record(lsn: U64, txn: U64, prev: U64, kind: Kind)

  function Tag(k: Kind): Byte {
    match k
    case Begin => 0
    case Commit => 1
    case Abort => 2
    case Insert(_, _) => 3
    case Delete(_, _) => 4
    case Clr(_, _) => 5
    case Checkpoint(_, _) => 6
    case IndexInsert(_, _, _) => 7
    case SequenceAdvance(_, _) => 8
    case PageInit(_, _) => 9
  }

  // ---- writing ----

  function RowBytes(rid: RowId): (b: seq<Byte>)
    ensures |b| == 6
  {
    Le(rid.page, 4) + Le(rid.slot, 2)
  }

  /** The pairs of a map in some iteration order. */
  function AttBytes(l: seq<(U64, U64)>): (b: seq<Byte>)
    ensures |b| == 16 * |l|
  {
    if l == [] then [] else Le(l[0].0, 8) + Le(l[0].1, 8) + AttBytes(l[1..])
  }

  function DptBytes(l: seq<(U32, U64)>): (b: seq<Byte>)
    ensures |b| == 12 * |l|
  {
    if l == [] then [] else Le(l[0].0, 4) + Le(l[0].1, 8) + DptBytes(l[1..])
  }

  /** `l` lists every pair of `m` once. */
  ghost predicate Lists<K, V>(m: map<K, V>, l: seq<(K, V)>) {
    && (forall i, j :: 0 <= i < j < |l| ==> l[i].0 != l[j].0)
    && (forall i :: 0 <= i < |l| ==> l[i].0 in m && m[l[i].0] == l[i].1)
    && (forall k :: k in m ==> exists i :: 0 <= i < |l| && l[i].0 == k)
  }

  /** The payload; `att` and `dpt` are the orders in which a checkpoint's maps are walked. Lengths are
      written as 32-bit numbers, so longer ones lose their upper bits. */
  function Payload(k: Kind, att: seq<(U64, U64)>, dpt: seq<(U32, U64)>): seq<Byte> {
    match k
    case Begin => []
    case Commit => []
    case Abort => []
    case Insert(rid, data) => RowBytes(rid) + data
    case Delete(rid, xmax) => RowBytes(rid) + Le(xmax, 8)
    case Clr(undoNext, UndoInsert(rid)) => Le(undoNext, 8) + [0] + RowBytes(rid)
    case Clr(undoNext, UndoDelete(rid, was)) => Le(undoNext, 8) + [1] + RowBytes(rid) + Le(was, 8)
    case Checkpoint(_, _) => Le(|att|, 4) + AttBytes(att) + Le(|dpt|, 4) + DptBytes(dpt)
    case IndexInsert(indexId, key, rid) => Le(indexId, 8) + Le(|key|, 4) + key + RowBytes(rid)
    case SequenceAdvance(page, value) => Le(page, 4) + PutI64(value)
    case PageInit(page, pageKind) => Le(page, 4) + [pageKind]
  }

  function Layout(r: Record, att: seq<(U64, U64)>, dpt: seq<(U32, U64)>): seq<Byte> {
    Le(r.lsn, 8) + Le(r.txn, 8) + Le(r.prev, 8) + [Tag(r.kind)] + Payload(r.kind, att, dpt)
  }

  ghost predicate Orders(k: Kind, att: seq<(U64, U64)>, dpt: seq<(U32, U64)>) {
    k.Checkpoint? ==> Lists(k.att, att) && Lists(k.dpt, dpt)
  }

  /** `b` is the record written with some iteration order of its maps. */
  ghost predicate IsEncoding(r: Record, b: seq<Byte>) {
    exists att, dpt :: Orders(r.kind, att, dpt) && b == Layout(r, att, dpt)
  }

  /** Every length in the record fits the 32 bits it is written in. */
  predicate LengthsFit(k: Kind) {
    match k
    case IndexInsert(_, key, _) => |key| < 0x1_0000_0000
    case Checkpoint(att, dpt) => |att| < 0x1_0000_0000 && |dpt| < 0x1_0000_0000
    case _ => true
  }

  // ---- reading ----

  function ReadRow(b: seq<Byte>): RowId
    requires |b| >= 6
  {
    RowId(GetU32(b[0..4]), GetU16(b[4..6]))
  }

  /** Reads `n` pairs, adding each to the map, and returns the map with the bytes left over. */
  function ReadAtt(n: nat, b: seq<Byte>, m: map<U64, U64>): Result<(map<U64, U64>, seq<Byte>)> {
    if n == 0 then Ok((m, b))
    else if |b| < 16 then Err
    else ReadAtt(n - 1, b[16..], m[GetU64(b[0..8]) := GetU64(b[8..16])])
  }

  function ReadDpt(n: nat, b: seq<Byte>, m: map<U32, U64>): Result<map<U32, U64>> {
    if n == 0 then Ok(m)
    else if |b| < 12 then Err
    else ReadDpt(n - 1, b[12..], m[GetU32(b[0..4]) := GetU64(b[4..12])])
  }

  function ReadCheckpoint(rest: seq<Byte>): Result<Kind> {
    if |rest| < 4 then Err else
    match ReadAtt(GetU32(rest[0..4]), rest[4..], map[])
    case Err => Err
    case Ok((att, more)) =>
      if |more| < 4 then Err else
      match ReadDpt(GetU32(more[0..4]), more[4..], map[])
      case Err => Err
      case Ok(dpt) => Ok(Checkpoint(att, dpt))
  }

  function ReadClr(rest: seq<Byte>): Result<Kind> {
    if |rest| < 9 then Err
    else if rest[8] == 0 then
      if |rest| < 15 then Err else Ok(Clr(GetU64(rest[0..8]), UndoInsert(ReadRow(rest[9..]))))
    else if rest[8] == 1 then
      if |rest| < 23 then Err
      else Ok(Clr(GetU64(rest[0..8]), UndoDelete(ReadRow(rest[9..]), GetU64(rest[15..23]))))
    else Err
  }

  function ReadIndexInsert(rest: seq<Byte>): Result<Kind> {
    if |rest| < 12 then Err else
    var n := GetU32(rest[8..12]);
    if |rest| < 12 + n + 6 then Err
    else Ok(IndexInsert(GetU64(rest[0..8]), rest[12..12 + n], ReadRow(rest[12 + n..])))
  }

  function ReadKind(tag: Byte, rest: seq<Byte>): Result<Kind> {
    if tag == 0 then Ok(Begin)
    else if tag == 1 then Ok(Commit)
    else if tag == 2 then Ok(Abort)
    else if tag == 3 then if |rest| < 6 then Err else Ok(Insert(ReadRow(rest), rest[6..]))
    else if tag == 4 then if |rest| < 14 then Err else Ok(Delete(ReadRow(rest), GetU64(rest[6..14])))
    else if tag == 5 then ReadClr(rest)
    else if tag == 6 then ReadCheckpoint(rest)
    else if tag == 7 then ReadIndexInsert(rest)
    else if tag == 8 then if |rest| < 12 then Err else Ok(SequenceAdvance(GetU32(rest[0..4]), GetI64(rest[4..12])))
    else if tag == 9 then if |rest| < 5 then Err else Ok(PageInit(GetU32(rest[0..4]), rest[4]))
    else Err
  }

  function ReadRecord(b: seq<Byte>): Result<Record> {
    if |b| < 25 then Err else
    match ReadKind(b[24], b[25..])
    case Err => Err
    case Ok(k) => Ok(Record(GetU64(b[0..8]), GetU64(b[8..16]), GetU64(b[16..24]), k))
  }

  // ---- reading undoes writing ----

  lemma RowRound(rid: RowId, pre: seq<Byte>, post: seq<Byte>)
    ensures ReadRow((pre + RowBytes(rid) + post)[|pre|..]) == rid
  {
    U32Round(rid.page);
    U16Round(rid.slot);
    var b := (pre + RowBytes(rid) + post)[|pre|..];
    assert b == Le(rid.page, 4) + Le(rid.slot, 2) + post;
    assert b[0..4] == Le(rid.page, 4) && b[4..6] == Le(rid.slot, 2);
  }

  function PutAll<K, V>(m: map<K, V>, l: seq<(K, V)>): map<K, V>
    decreases |l|
  {
    if l == [] then m else PutAll(m[l[0].0 := l[0].1], l[1..])
  }

  lemma {:induction false} AttRound(l: seq<(U64, U64)>, post: seq<Byte>, m: map<U64, U64>)
    ensures ReadAtt(|l|, AttBytes(l) + post, m) == Ok((PutAll(m, l), post))
  {
    hide Le;
    if l == [] {
      assert AttBytes(l) + post == post;
    } else {
      U64Round(l[0].0);
      U64Round(l[0].1);
      var b := AttBytes(l) + post;
      assert b == Le(l[0].0, 8) + Le(l[0].1, 8) + (AttBytes(l[1..]) + post);
      assert b[0..8] == Le(l[0].0, 8) && b[8..16] == Le(l[0].1, 8) && b[16..] == AttBytes(l[1..]) + post;
      AttRound(l[1..], post, m[l[0].0 := l[0].1]);
    }
  }

  lemma {:induction false} DptRound(l: seq<(U32, U64)>, m: map<U32, U64>)
    ensures ReadDpt(|l|, DptBytes(l), m) == Ok(PutAll(m, l))
  {
    hide Le;
    if l != [] {
      U32Round(l[0].0);
      U64Round(l[0].1);
      var b := DptBytes(l);
      assert b[0..4] == Le(l[0].0, 4) && b[4..12] == Le(l[0].1, 8) && b[12..] == DptBytes(l[1..]);
      DptRound(l[1..], m[l[0].0 := l[0].1]);
    }
  }

  /** Putting back all listed pairs rebuilds the map, whatever the order. */
  lemma {:induction false} PutAllRebuilds<K, V>(m: map<K, V>, l: seq<(K, V)>, acc: map<K, V>)
    requires Lists(m, l)
    ensures PutAll(acc, l) == acc + m && |l| == |m|
    decreases |l|
  {
    if l == [] {
      assert m == map[];
    } else {
      ListsRest(m, l);
      hide Lists;
      var rest := m - {l[0].0};
      PutAllRebuilds(rest, l[1..], acc[l[0].0 := l[0].1]);
      MapJoin(acc, m, l[0].0);
    }
  }

  lemma MapJoin<K, V>(acc: map<K, V>, m: map<K, V>, k: K)
    requires k in m
    ensures acc[k := m[k]] + (m - {k}) == acc + m
  {
  }

  lemma ListsRest<K, V>(m: map<K, V>, l: seq<(K, V)>)
    requires Lists(m, l) && l != []
    ensures Lists(m - {l[0].0}, l[1..]) && |m - {l[0].0}| == |m| - 1 && l[0].0 in m && m[l[0].0] == l[0].1
  {
    var rest, tail := m - {l[0].0}, l[1..];
    assert forall i :: 0 <= i < |tail| ==> tail[i] == l[i + 1];
    forall k | k in rest ensures exists i :: 0 <= i < |tail| && tail[i].0 == k {
      var i :| 0 <= i < |l| && l[i].0 == k;
      assert tail[i - 1].0 == k;
    }
    LessOne(m, l[0].0);
  }

  lemma LessOne<K, V>(m: map<K, V>, k: K)
    requires k in m
    ensures |m - {k}| == |m| - 1
  {
    assert m.Keys == (m - {k}).Keys + {k};
  }

  lemma CheckpointRound(k: Kind, att: seq<(U64, U64)>, dpt: seq<(U32, U64)>)
    requires k.Checkpoint? && Orders(k, att, dpt) && LengthsFit(k)
    ensures ReadCheckpoint(Payload(k, att, dpt)) == Ok(k)
  {
    hide Lists;
    PutAllRebuilds(k.att, att, map[]);
    PutAllRebuilds(k.dpt, dpt, map[]);
    NothingAdded(k.att);
    NothingAdded(k.dpt);
    var more := Le(|dpt|, 4) + DptBytes(dpt);
    assert Payload(k, att, dpt) == Le(|att|, 4) + (AttBytes(att) + more);
    hide *;
    AfterLength(|att|, AttBytes(att) + more);
    AttRound(att, more, map[]);
    AfterLength(|dpt|, DptBytes(dpt));
    DptRound(dpt, map[]);
    CheckpointParts(Payload(k, att, dpt), k, |att|, |dpt|, more);
  }

  lemma CheckpointParts(b: seq<Byte>, k: Kind, n: U32, d: U32, more: seq<Byte>)
    requires k.Checkpoint? && |b| >= 4 && GetU32(b[0..4]) == n && ReadAtt(n, b[4..], map[]) == Ok((k.att, more))
    requires |more| >= 4 && GetU32(more[0..4]) == d && ReadDpt(d, more[4..], map[]) == Ok(k.dpt)
    ensures ReadCheckpoint(b) == Ok(k)
  {
  }

  lemma NothingAdded<K, V>(m: map<K, V>)
    ensures map[] + m == m
  {
  }

  lemma AfterLength(n: U32, rest: seq<Byte>)
    ensures var b := Le(n, 4) + rest; |b| >= 4 && GetU32(b[0..4]) == n && b[4..] == rest
  {
    hide Le;
    U32Round(n);
    assert (Le(n, 4) + rest)[0..4] == Le(n, 4);
  }

  lemma ClrRound(k: Kind)
    requires k.Clr?
    ensures ReadClr(Payload(k, [], [])) == Ok(k)
  {
    U64Round(k.undoNext);
    var b := Payload(k, [], []);
    assert b[0..8] == Le(k.undoNext, 8);
    match k.redo
    case UndoInsert(rid) =>
      RowRound(rid, Le(k.undoNext, 8) + [0], []);
      assert b == Le(k.undoNext, 8) + [0] + RowBytes(rid) + [];
    case UndoDelete(rid, was) =>
      U64Round(was);
      RowRound(rid, Le(k.undoNext, 8) + [1], Le(was, 8));
      assert b[15..23] == Le(was, 8);
  }

  lemma IndexInsertRound(k: Kind)
    requires k.IndexInsert? && |k.key| < 0x1_0000_0000
    ensures ReadIndexInsert(Payload(k, [], [])) == Ok(k)
  {
    U64Round(k.indexId);
    U32Round(|k.key|);
    var b := Payload(k, [], []);
    assert b[0..8] == Le(k.indexId, 8) && b[8..12] == Le(|k.key|, 4) && b[12..12 + |k.key|] == k.key;
    RowRound(k.rid, Le(k.indexId, 8) + Le(|k.key|, 4) + k.key, []);
    assert b == Le(k.indexId, 8) + Le(|k.key|, 4) + k.key + RowBytes(k.rid) + [];
  }

  lemma SmallKindRound(k: Kind)
    requires !k.Clr? && !k.Checkpoint? && !k.IndexInsert?
    ensures ReadKind(Tag(k), Payload(k, [], [])) == Ok(k)
  {
    var b := Payload(k, [], []);
    match k
    case Insert(rid, data) =>
      RowRound(rid, [], data);
      assert [] + RowBytes(rid) + data == b && b[0..] == b && b[6..] == data;
    case Delete(rid, xmax) =>
      U64Round(xmax);
      RowRound(rid, [], Le(xmax, 8));
      assert [] + RowBytes(rid) + Le(xmax, 8) == b && b[0..] == b && b[6..14] == Le(xmax, 8);
    case SequenceAdvance(page, value) =>
      U32Round(page);
      I64Round(value);
      assert b[0..4] == Le(page, 4) && b[4..12] == PutI64(value);
    case PageInit(page, pageKind) =>
      U32Round(page);
      assert b[0..4] == Le(page, 4) && b[4] == pageKind;
    case _ =>
  }

  lemma KindRound(k: Kind, att: seq<(U64, U64)>, dpt: seq<(U32, U64)>)
    requires Orders(k, att, dpt) && LengthsFit(k)
    ensures ReadKind(Tag(k), Payload(k, att, dpt)) == Ok(k)
  {
    match k
    case Clr(_, _) => ClrRound(k);
    case Checkpoint(_, _) => CheckpointRound(k, att, dpt);
    case IndexInsert(_, _, _) => IndexInsertRound(k);
    case _ => SmallKindRound(k);
  }

  lemma LayoutParts(r: Record, att: seq<(U64, U64)>, dpt: seq<(U32, U64)>)
    ensures var b := Layout(r, att, dpt);
      |b| >= 25 && b[24] == Tag(r.kind) && b[25..] == Payload(r.kind, att, dpt) &&
      GetU64(b[0..8]) == r.lsn && GetU64(b[8..16]) == r.txn && GetU64(b[16..24]) == r.prev
  {
    hide Le;
    hide Payload;
    U64Round(r.lsn);
    U64Round(r.txn);
    U64Round(r.prev);
    var b := Layout(r, att, dpt);
    assert b[0..8] == Le(r.lsn, 8) && b[8..16] == Le(r.txn, 8) && b[16..24] == Le(r.prev, 8);
  }

  lemma {:induction false} ReadAttSize(n: nat, b: seq<Byte>, m: map<U64, U64>)
    ensures ReadAtt(n, b, m).Ok? ==> |ReadAtt(n, b, m).value.0| <= |m| + n
  {
    if n > 0 && |b| >= 16 {
      var k := GetU64(b[0..8]);
      assert m[k := GetU64(b[8..16])].Keys == m.Keys + {k};
      ReadAttSize(n - 1, b[16..], m[k := GetU64(b[8..16])]);
    }
  }

  lemma {:induction false} ReadDptSize(n: nat, b: seq<Byte>, m: map<U32, U64>)
    ensures ReadDpt(n, b, m).Ok? ==> |ReadDpt(n, b, m).value| <= |m| + n
  {
    if n > 0 && |b| >= 12 {
      var k := GetU32(b[0..4]);
      assert m[k := GetU64(b[4..12])].Keys == m.Keys + {k};
      ReadDptSize(n - 1, b[12..], m[k := GetU64(b[4..12])]);
    }
  }

  /** Nothing that is read back has a length over 32 bits. */
  lemma ReadLengthsFit(tag: Byte, rest: seq<Byte>)
    ensures ReadKind(tag, rest).Ok? ==> LengthsFit(ReadKind(tag, rest).value)
  {
    if tag == 6 && ReadCheckpoint(rest).Ok? {
      ReadAttSize(GetU32(rest[0..4]), rest[4..], map[]);
      var more := ReadAtt(GetU32(rest[0..4]), rest[4..], map[]).value.1;
      ReadDptSize(GetU32(more[0..4]), more[4..], map[]);
    }
  }

  /** Reading back a written record gives the record, in whatever order its maps were walked, exactly when
      no length in it was cut to 32 bits. */
  lemma RecordRound(r: Record, b: seq<Byte>)
    requires IsEncoding(r, b)
    ensures ReadRecord(b) == Ok(r) <==> LengthsFit(r.kind)
  {
    var att, dpt :| Orders(r.kind, att, dpt) && b == Layout(r, att, dpt);
    LayoutParts(r, att, dpt);
    if LengthsFit(r.kind) {
      KindRound(r.kind, att, dpt);
    } else {
      ReadLengthsFit(b[24], b[25..]);
    }
  }
}
