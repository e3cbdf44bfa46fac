/** Rows as bytes: a null bitmap and the values, behind a 22-byte MVCC header that can be patched in place. */
module TupleCodec {
  import opened Common
  import opened Bytes
  import opened PageBytes
  import opened SlottedPage

  datatype ColumnType = IntCol | VarcharCol | BoolCol | DoubleCol | TimestampCol | DateCol | TimeCol | IntervalCol

  /** A column value as the codec sees it: text is its UTF-8 bytes, a double its 64 bits. */
  datatype Field =
    | Null
    | Int(int32: I32)
    | Varchar(text: seq<Byte>)
    | Bool(flag: bool)
    | Double(bits: U64)
    | Timestamp(micros: I64)
    | Date(days: I32)
    | Time(micros: I64)
    | Interval(ivMonths: I32, ivDays: I32, ivMicros: I64)

  /** The forward pointer of an updated row. */
  datatype Ctid = Ctid(page: U32, slot: U16)

  datatype Row = Row(xmin: U64, xmax: U64, ctid: Ctid, values: seq<Field>)

  // ---- text ----

  predicate Continuation(b: Byte) { 0x80 <= b < 0xC0 }

  /** Well-formed UTF-8, table 3-7 of the Unicode Standard. */
  predicate ValidUtf8(b: seq<Byte>) {
    if b == [] then true
    else if b[0] < 0x80 then ValidUtf8(b[1..])
    else if 0xC2 <= b[0] <= 0xDF then |b| >= 2 && Continuation(b[1]) && ValidUtf8(b[2..])
    else if 0xE0 <= b[0] <= 0xEF then
      && |b| >= 3 && Continuation(b[1]) && Continuation(b[2])
      && (b[0] == 0xE0 ==> b[1] >= 0xA0) && (b[0] == 0xED ==> b[1] < 0xA0)
      && ValidUtf8(b[3..])
    else if 0xF0 <= b[0] <= 0xF4 then
      && |b| >= 4 && Continuation(b[1]) && Continuation(b[2]) && Continuation(b[3])
      && (b[0] == 0xF0 ==> b[1] >= 0x90) && (b[0] == 0xF4 ==> b[1] < 0x90)
      && ValidUtf8(b[4..])
    else false
  }

  // ---- one value ----

  /** A length is stored in 32 bits; a longer one loses its high part. */
  function EncodeField(v: Field): seq<Byte> {
    match v
    case Null => []
    case Int(x) => PutI32(x)
    case Varchar(t) => Le(|t| % 0x1_0000_0000, 4) + t
    case Bool(f) => [if f then 1 else 0]
    case Double(bits) => Le(bits, 8)
    case Timestamp(x) => PutI64(x)
    case Date(x) => PutI32(x)
    case Time(x) => PutI64(x)
    case Interval(m, d, u) => PutI32(m) + PutI32(d) + PutI64(u)
  }

  /** The value at the head of `data` and how many bytes it takes. */
  function DecodeField(data: seq<Byte>, t: ColumnType, isNull: bool): (r: Result<(Field, nat)>)
    ensures r.Ok? ==> r.value.1 <= |data| && Conforms(r.value.0, t) && r.value.0.Null? == isNull
  {
    if isNull then Ok((Null, 0))
    else match t
      case IntCol => if |data| < 4 then Err else Ok((Int(GetI32(data[..4])), 4))
      case VarcharCol => DecodeText(data)
      case BoolCol => if |data| < 1 then Err else Ok((Bool(data[0] != 0), 1))
      case DoubleCol => if |data| < 8 then Err else Ok((Double(GetU64(data[..8])), 8))
      case TimestampCol => if |data| < 8 then Err else Ok((Timestamp(GetI64(data[..8])), 8))
      case DateCol => if |data| < 4 then Err else Ok((Date(GetI32(data[..4])), 4))
      case TimeCol => if |data| < 8 then Err else Ok((Time(GetI64(data[..8])), 8))
      case IntervalCol =>
        if |data| < 16 then Err
        else Ok((Interval(GetI32(data[..4]), GetI32(data[4..8]), GetI64(data[8..16])), 16))
  }

  function DecodeText(data: seq<Byte>): (r: Result<(Field, nat)>)
    ensures r.Ok? ==> r.value.1 <= |data| && Conforms(r.value.0, VarcharCol) && r.value.0.Varchar?
  {
    if |data| < 4 then Err else
      var len: int := GetU32(data[..4]);
      if |data| < 4 + len then Err
      else if !ValidUtf8(data[4..4 + len]) then Err
      else Ok((Varchar(data[4..4 + len]), 4 + len))
  }

  /** Null fits every column; any other value must be of the column's type, and text valid and its length below
      four gigabytes. */
  predicate Conforms(v: Field, t: ColumnType) {
    match v
    case Null => true
    case Int(_) => t == IntCol
    case Varchar(s) => t == VarcharCol && ValidUtf8(s) && |s| < 0x1_0000_0000
    case Bool(_) => t == BoolCol
    case Double(_) => t == DoubleCol
    case Timestamp(_) => t == TimestampCol
    case Date(_) => t == DateCol
    case Time(_) => t == TimeCol
    case Interval(_, _, _) => t == IntervalCol
  }

  /** A conforming value is read back, whatever follows it. */
  lemma FieldRound(v: Field, t: ColumnType, rest: seq<Byte>)
    requires Conforms(v, t)
    ensures DecodeField(EncodeField(v) + rest, t, v.Null?) == Ok((v, |EncodeField(v)|))
  {
    hide ValidUtf8;
    hide Le;
    var e := EncodeField(v);
    var data := e + rest;
    assert data[..|e|] == e;
    match v {
      case Null =>
      case Int(x) => I32Round(x);
      case Varchar(s) =>
        U32Round(|s|);
        assert data[..4] == Le(|s|, 4) && data[4..4 + |s|] == s;
      case Bool(f) =>
        assert data[0] == e[0];
      case Double(bits) => U64Round(bits);
      case Timestamp(x) => I64Round(x);
      case Date(x) => I32Round(x);
      case Time(x) => I64Round(x);
      case Interval(m, d, u) =>
        I32Round(m);
        I32Round(d);
        I64Round(u);
        assert data[..4] == PutI32(m) && data[4..8] == PutI32(d) && data[8..16] == PutI64(u);
    }
  }

  // ---- the null bitmap ----

  function BitmapSize(n: nat): nat { (n + 7) / 8 }

  /** `x & (1 << k) != 0`. */
  predicate BitOf(x: nat, k: nat) {
    if k == 0 then x % 2 == 1 else BitOf(x / 2, k - 1)
  }

  /** `x | 1 << k`. */
  function WithBit(x: nat, k: nat): nat {
    if k == 0 then x / 2 * 2 + 1 else x % 2 + 2 * WithBit(x / 2, k - 1)
  }

  function Pow2(n: nat): (p: nat)
    ensures p > 0
  {
    if n == 0 then 1 else 2 * Pow2(n - 1)
  }

  lemma {:induction false} WithBitAt(x: nat, k: nat, j: nat)
    ensures BitOf(WithBit(x, k), j) == (j == k || BitOf(x, j))
  {
    if k > 0 && j > 0 {
      assert WithBit(x, k) / 2 == WithBit(x / 2, k - 1);
      WithBitAt(x / 2, k - 1, j - 1);
    } else if k == 0 && j > 0 {
      assert WithBit(x, k) / 2 == x / 2;
    }
  }

  lemma {:induction false} WithBitBelow(x: nat, k: nat, n: nat)
    requires x < Pow2(n) && k < n
    ensures WithBit(x, k) < Pow2(n)
  {
    var half := Pow2(n - 1);
    assert Pow2(n) == 2 * half && x / 2 < half;
    if k > 0 {
      WithBitBelow(x / 2, k - 1, n - 1);
      assert WithBit(x / 2, k - 1) <= half - 1;
    }
  }

  function SetBit(b: Byte, k: nat): Byte
    requires k < 8
  {
    assert Pow2(4) == 16 && Pow2(8) == 0x100 by {
      assert Pow2(6) == 4 * Pow2(4);
    }
    WithBitBelow(b, k, 8);
    WithBit(b, k)
  }

  /** Bit `i` of the bitmap says that column `i` is null. */
  predicate IsNull(bitmap: seq<Byte>, i: nat)
    requires i / 8 < |bitmap|
  {
    BitOf(bitmap[i / 8], i % 8)
  }

  /** The bitmap after the first `k` columns have been looked at. */
  function Bitmap(vs: seq<Field>, k: nat): (b: seq<Byte>)
    requires k <= |vs|
    ensures |b| == BitmapSize(|vs|)
  {
    if k == 0 then seq(BitmapSize(|vs|), _ => 0)
    else
      var b := Bitmap(vs, k - 1);
      if vs[k - 1].Null? then b[(k - 1) / 8 := SetBit(b[(k - 1) / 8], (k - 1) % 8)] else b
  }

  lemma {:induction false} NoBits(k: nat)
    ensures !BitOf(0, k)
  {
    if k > 0 {
      NoBits(k - 1);
    }
  }

  /** The bits that are set are those of the null columns. */
  lemma {:induction false} BitmapBits(vs: seq<Field>, k: nat, i: nat)
    requires k <= |vs| && i < |vs|
    ensures IsNull(Bitmap(vs, k), i) == (i < k && vs[i].Null?)
  {
    if k == 0 {
      NoBits(i % 8);
    } else {
      BitmapBits(vs, k - 1, i);
      var b, c := Bitmap(vs, k - 1), k - 1;
      WithBitAt(b[c / 8], c % 8, i % 8);
      assert c / 8 == i / 8 && c % 8 == i % 8 ==> c == i;
    }
  }

  // ---- rows ----

  function EncodeFields(vs: seq<Field>): seq<Byte> {
    if vs == [] then [] else EncodeFields(vs[..|vs| - 1]) + EncodeField(vs[|vs| - 1])
  }

  function EncodeTuple(vs: seq<Field>): seq<Byte> {
    Bitmap(vs, |vs|) + EncodeFields(vs)
  }

  /** The columns from `i` on, read from `offset`. */
  function DecodeFrom(data: seq<Byte>, schema: seq<ColumnType>, i: nat, offset: nat): (r: Result<seq<Field>>)
    requires i <= |schema| && BitmapSize(|schema|) <= offset <= |data|
    ensures r.Ok? ==> |r.value| == |schema| - i && forall k :: 0 <= k < |r.value| ==>
      Conforms(r.value[k], schema[i + k])
    decreases |schema| - i
  {
    if i == |schema| then Ok([])
    else match DecodeField(data[offset..], schema[i], IsNull(data[..BitmapSize(|schema|)], i))
      case Err => Err
      case Ok(p) =>
        match DecodeFrom(data, schema, i + 1, offset + p.1)
        case Err => Err
        case Ok(vs) => Ok([p.0] + vs)
  }

  function DecodeTuple(data: seq<Byte>, schema: seq<ColumnType>): (r: Result<seq<Field>>)
    ensures r.Ok? ==> RowConforms(r.value, schema)
  {
    if |data| < BitmapSize(|schema|) then Err else DecodeFrom(data, schema, 0, BitmapSize(|schema|))
  }

  predicate RowConforms(vs: seq<Field>, schema: seq<ColumnType>) {
    |vs| == |schema| && forall i :: 0 <= i < |vs| ==> Conforms(vs[i], schema[i])
  }

  /** Where column `i` of an encoded row starts. */
  function StartOf(vs: seq<Field>, i: nat): nat
    requires i <= |vs|
  {
    BitmapSize(|vs|) + |EncodeFields(vs[..i])|
  }

  /** An encoded row, cut before column `i` and after it. */
  lemma {:induction false} CutAt(vs: seq<Field>, i: nat)
    requires i < |vs|
    ensures EncodeFields(vs[..i]) + EncodeField(vs[i]) == EncodeFields(vs[..i + 1])
  {
    assert vs[..i + 1][..i] == vs[..i];
  }

  lemma {:induction false} Prefix(vs: seq<Field>, i: nat)
    requires i <= |vs|
    ensures EncodeFields(vs[..i]) <= EncodeFields(vs)
    decreases |vs| - i
  {
    if i == |vs| {
      assert vs[..i] == vs;
    } else {
      CutAt(vs, i);
      Prefix(vs, i + 1);
    }
  }

  lemma {:induction false} FieldsRound(vs: seq<Field>, schema: seq<ColumnType>, i: nat)
    requires RowConforms(vs, schema) && i <= |vs|
    ensures StartOf(vs, i) <= |EncodeTuple(vs)|
    ensures DecodeFrom(EncodeTuple(vs), schema, i, StartOf(vs, i)) == Ok(vs[i..])
    decreases |vs| - i
  {
    hide EncodeField;
    hide DecodeField;
    hide Bitmap;
    hide IsNull;
    hide Conforms;
    Prefix(vs, i);
    var data, at := EncodeTuple(vs), StartOf(vs, i);
    var n := BitmapSize(|vs|);
    assert data[..n] == Bitmap(vs, |vs|);
    if i < |vs| {
      CutAt(vs, i);
      Prefix(vs, i + 1);
      FieldsRound(vs, schema, i + 1);
      BitmapBits(vs, |vs|, i);
      Tail(vs, i);
      FieldRound(vs[i], schema[i], EncodeFields(vs)[|EncodeFields(vs[..i + 1])|..]);
      assert vs[i..] == [vs[i]] + vs[i + 1..];
    }
  }

  lemma Tail(vs: seq<Field>, i: nat)
    requires i < |vs|
    ensures StartOf(vs, i) <= |EncodeTuple(vs)| && |EncodeFields(vs[..i + 1])| <= |EncodeFields(vs)|
    ensures EncodeTuple(vs)[StartOf(vs, i)..] == EncodeField(vs[i]) + EncodeFields(vs)[|EncodeFields(vs[..i + 1])|..]
  {
    hide EncodeField;
    hide EncodeFields;
    hide Bitmap;
    Prefix(vs, i);
    Prefix(vs, i + 1);
    CutAt(vs, i);
    var all, a, e := EncodeFields(vs), EncodeFields(vs[..i]), EncodeField(vs[i]);
    assert EncodeTuple(vs)[StartOf(vs, i)..] == all[|a|..];
    assert all == (a + e) + all[|a + e|..];
  }

  /** Serializing and deserializing gives back exactly the rows that conform to the schema: the right number of
      columns, each null or of its type, text valid and below four gigabytes. */
  lemma RowRoundTrip(vs: seq<Field>, schema: seq<ColumnType>)
    ensures DecodeTuple(EncodeTuple(vs), schema) == Ok(vs) <==> RowConforms(vs, schema)
  {
    if RowConforms(vs, schema) {
      assert vs[..0] == [];
      FieldsRound(vs, schema, 0);
      assert vs[0..] == vs;
    }
  }

  /** The serializer: a zeroed bitmap, a pass for the nulls and a pass for the values. */
  method SerializeTuple(values: seq<Field>) returns (buf: seq<Byte>)
    ensures buf == EncodeTuple(values)
  {
    hide SetBit;
    hide EncodeField;
    buf := seq(BitmapSize(|values|), _ => 0);
    var i := 0;
    while i < |values|
      invariant 0 <= i <= |values| && buf == Bitmap(values, i)
    {
      if values[i].Null? {
        buf := buf[i / 8 := SetBit(buf[i / 8], i % 8)];
      }
      i := i + 1;
    }
    ghost var bitmap := buf;
    hide Bitmap;
    i := 0;
    assert values[..0] == [];
    while i < |values|
      invariant 0 <= i <= |values| && buf == bitmap + EncodeFields(values[..i])
    {
      Appended(bitmap, values, i);
      buf := buf + EncodeField(values[i]);
      i := i + 1;
    }
    assert values[..i] == values;
  }

  lemma Appended(b: seq<Byte>, vs: seq<Field>, i: nat)
    requires i < |vs|
    ensures b + EncodeFields(vs[..i]) + EncodeField(vs[i]) == b + EncodeFields(vs[..i + 1])
  {
    hide EncodeField;
    hide EncodeFields;
    CutAt(vs, i);
    assert b + EncodeFields(vs[..i]) + EncodeField(vs[i]) == b + (EncodeFields(vs[..i]) + EncodeField(vs[i]));
  }

  function After(vs: seq<Field>, r: Result<seq<Field>>): Result<seq<Field>> {
    match r
    case Err => Err
    case Ok(ws) => Ok(vs + ws)
  }

  method DeserializeTuple(data: seq<Byte>, schema: seq<ColumnType>) returns (r: Result<seq<Field>>)
    ensures r == DecodeTuple(data, schema)
  {
    hide DecodeField;
    hide DecodeFrom;
    hide DecodeTuple;
    hide Conforms;
    hide After;
    var bitmapLen := BitmapSize(|schema|);
    DecodeStarts(data, schema);
    if |data| < bitmapLen {
      return Err;
    }
    var bitmap := data[..bitmapLen];
    var offset := bitmapLen;
    var values := [];
    var i := 0;
    while i < |schema|
      invariant 0 <= i <= |schema| && bitmapLen <= offset <= |data|
      invariant DecodeTuple(data, schema) == After(values, DecodeFrom(data, schema, i, offset))
    {
      DecodeSteps(data, schema, i, offset, values);
      var field := DecodeField(data[offset..], schema[i], IsNull(bitmap, i));
      match field {
        case Err => return Err;
        case Ok(p) =>
          values := values + [p.0];
          offset := offset + p.1;
      }
      i := i + 1;
    }
    DecodeEnds(data, schema, offset, values);
    r := Ok(values);
  }

  lemma DecodeStarts(data: seq<Byte>, schema: seq<ColumnType>)
    ensures DecodeTuple(data, schema) ==
      if |data| < BitmapSize(|schema|) then Err else After([], DecodeFrom(data, schema, 0, BitmapSize(|schema|)))
  {
    hide DecodeFrom;
    var r := DecodeTuple(data, schema);
    if r.Ok? {
      assert [] + r.value == r.value;
    }
  }

  lemma DecodeSteps(data: seq<Byte>, schema: seq<ColumnType>, i: nat, offset: nat, vs: seq<Field>)
    requires i < |schema| && BitmapSize(|schema|) <= offset <= |data|
    ensures After(vs, DecodeFrom(data, schema, i, offset)) ==
      match DecodeField(data[offset..], schema[i], IsNull(data[..BitmapSize(|schema|)], i))
      case Err => Err
      case Ok(p) => After(vs + [p.0], DecodeFrom(data, schema, i + 1, offset + p.1))
  {
    hide DecodeField;
    hide Conforms;
    var field := DecodeField(data[offset..], schema[i], IsNull(data[..BitmapSize(|schema|)], i));
    if field.Ok? {
      Regroup(vs, field.value.0, DecodeFrom(data, schema, i + 1, offset + field.value.1));
    }
  }

  lemma DecodeEnds(data: seq<Byte>, schema: seq<ColumnType>, offset: nat, vs: seq<Field>)
    requires BitmapSize(|schema|) <= offset <= |data|
    ensures After(vs, DecodeFrom(data, schema, |schema|, offset)) == Ok(vs)
  {
    assert vs + [] == vs;
  }

  lemma Regroup(vs: seq<Field>, v: Field, r: Result<seq<Field>>)
    ensures After(vs + [v], r) == After(vs, After([v], r))
  {
    if r.Ok? {
      assert vs + [v] + r.value == vs + ([v] + r.value);
    }
  }

  // ---- the MVCC header ----

  function EncodeRow(row: Row): seq<Byte> {
    Le(row.xmin, 8) + Le(row.xmax, 8) + Le(row.ctid.page, 4) + Le(row.ctid.slot, 2) + EncodeTuple(row.values)
  }

  /** `deserialize_tuple_mvcc_full`. */
  function DecodeRow(data: seq<Byte>, schema: seq<ColumnType>): Result<Row> {
    if |data| < MVCC_HEADER_SIZE then Err
    else match DecodeTuple(data[MVCC_HEADER_SIZE..], schema)
      case Err => Err
      case Ok(vs) => Ok(Row(GetU64(data[0..8]), GetU64(data[8..16]),
        Ctid(GetU32(data[16..20]), GetU16(data[20..22])), vs))
  }

  method SerializeTupleMvccWithCtid(row: Row) returns (buf: seq<Byte>)
    ensures buf == EncodeRow(row)
  {
    var payload := SerializeTuple(row.values);
    buf := Le(row.xmin, 8);
    buf := buf + Le(row.xmax, 8);
    buf := buf + Le(row.ctid.page, 4);
    buf := buf + Le(row.ctid.slot, 2);
    buf := buf + payload;
  }

  method DeserializeTupleMvccFull(data: seq<Byte>, schema: seq<ColumnType>) returns (r: Result<Row>)
    ensures r == DecodeRow(data, schema)
  {
    if |data| < MVCC_HEADER_SIZE {
      return Err;
    }
    var values := DeserializeTuple(data[MVCC_HEADER_SIZE..], schema);
    match values {
      case Err => return Err;
      case Ok(vs) =>
        r := Ok(Row(GetU64(data[0..8]), GetU64(data[8..16]), Ctid(GetU32(data[16..20]), GetU16(data[20..22])), vs));
    }
  }

  /** A stored row version is read back whole, header and values, just when its values conform to the schema. */
  lemma MvccRoundTrip(row: Row, schema: seq<ColumnType>)
    ensures DecodeRow(EncodeRow(row), schema) == Ok(row) <==> RowConforms(row.values, schema)
  {
    hide EncodeTuple;
    hide DecodeTuple;
    hide Le;
    var data := EncodeRow(row);
    HeaderParts(row);
    RowRoundTrip(row.values, schema);
    U64Round(row.xmin);
    U64Round(row.xmax);
    U32Round(row.ctid.page);
    U16Round(row.ctid.slot);
  }

  lemma HeaderParts(row: Row)
    ensures var data := EncodeRow(row);
      && |data| >= MVCC_HEADER_SIZE && data[0..8] == Le(row.xmin, 8) && data[8..16] == Le(row.xmax, 8)
      && data[16..20] == Le(row.ctid.page, 4) && data[20..22] == Le(row.ctid.slot, 2) &&
        data[22..] == EncodeTuple(row.values)
  {
    hide EncodeTuple;
    hide Le;
  }

  // ---- patching a stored row ----

  function WithXmax(r: Result<Row>, xmax: U64): Result<Row> {
    match r
    case Err => Err
    case Ok(row) => Ok(row.(xmax := xmax))
  }

  function WithCtid(r: Result<Row>, ctid: Ctid): Result<Row> {
    match r
    case Err => Err
    case Ok(row) => Ok(row.(ctid := ctid))
  }

  /** Whatever the bytes are, patching the xmax field changes the decoded xmax and nothing else. */
  lemma PatchXmax(data: seq<Byte>, xmax: U64, schema: seq<ColumnType>)
    requires |data| >= 16
    ensures DecodeRow(Patched(data, XMAX_AT, Le(xmax, 8)), schema) == WithXmax(DecodeRow(data, schema), xmax)
  {
    hide DecodeTuple;
    hide Le;
    var b := Le(xmax, 8);
    var r := Patched(data, XMAX_AT, b);
    if |data| >= MVCC_HEADER_SIZE {
      U64Round(xmax);
      assert r[0..8] == data[0..8] && r[8..16] == b && r[16..20] == data[16..20] && r[20..22] == data[20..22];
      assert r[22..] == data[22..];
    }
  }

  lemma PatchCtid(data: seq<Byte>, ctid: Ctid, schema: seq<ColumnType>)
    requires |data| >= MVCC_HEADER_SIZE
    ensures DecodeRow(Patched(Patched(data, CTID_PAGE_AT, Le(ctid.page, 4)), CTID_SLOT_AT, Le(ctid.slot, 2)), schema)
         == WithCtid(DecodeRow(data, schema), ctid)
  {
    hide DecodeTuple;
    hide Le;
    var p, s := Le(ctid.page, 4), Le(ctid.slot, 2);
    var m := Patched(data, CTID_PAGE_AT, p);
    var r := Patched(m, CTID_SLOT_AT, s);
    U32Round(ctid.page);
    U16Round(ctid.slot);
    assert m[0..8] == data[0..8] && m[8..16] == data[8..16] && m[16..20] == p && m[22..] == data[22..];
    assert r[0..8] == m[0..8] && r[8..16] == m[8..16] && r[16..20] == m[16..20] && r[20..22] == s && r[22..] == m[22..];
  }

  /** The row version in a slot. */
  function RowAt(tuples: seq<Option<seq<Byte>>>, slot: nat, schema: seq<ColumnType>): Result<Row>
    requires slot < |tuples|
  {
    match tuples[slot]
    case None => Err
    case Some(b) => DecodeRow(b, schema)
  }

  /** After a page's `SetTupleXmax`, every slot decodes as before, but for the one xmax. */
  lemma OnlyXmaxDiffers(before: seq<Option<seq<Byte>>>, slot: nat, xmax: U64, schema: seq<ColumnType>, j: nat)
    requires slot < |before| && before[slot].Some? && |before[slot].value| >= 16 && j < |before|
    ensures var after := before[slot := Some(Patched(before[slot].value, XMAX_AT, Le(xmax, 8)))];
      RowAt(after, j, schema) == if j == slot then WithXmax(RowAt(before, j, schema), xmax)
        else RowAt(before, j, schema)
  {
    PatchXmax(before[slot].value, xmax, schema);
  }

  /** The same for `SetTupleCtid` and the forward pointer. */
  lemma OnlyCtidDiffers(before: seq<Option<seq<Byte>>>, slot: nat, ctid: Ctid, schema: seq<ColumnType>, j: nat)
    requires slot < |before| && before[slot].Some? && |before[slot].value| >= MVCC_HEADER_SIZE && j < |before|
    ensures var half := Patched(before[slot].value, CTID_PAGE_AT, Le(ctid.page, 4));
      var after := before[slot := Some(Patched(half, CTID_SLOT_AT, Le(ctid.slot, 2)))];
      RowAt(after, j, schema) == if j == slot then WithCtid(RowAt(before, j, schema), ctid)
        else RowAt(before, j, schema)
  {
    PatchCtid(before[slot].value, ctid, schema);
  }

  /** The write of UPDATE and DELETE on a page that holds rows: the version gets its deleter and, when the
      update touches no indexed column, the pointer to its successor; every other row and every other field
      decodes as before. */
  method MarkReplaced(page: Page, slot: nat, xmax: U64, next: Option<Ctid>, ghost schema: seq<ColumnType>)
      returns (ok: bool)
    requires page.Valid() && slot < |page.Contents()| && RowAt(page.Contents(), slot, schema).Ok?
    modifies page.data
    ensures page.Valid() && ok && |page.Contents()| == |old(page.Contents())|
    ensures RowAt(page.Contents(), slot, schema) ==
      WithXmax(if next.Some? then WithCtid(old(RowAt(page.Contents(), slot, schema)), next.value)
        else old(RowAt(page.Contents(), slot, schema)), xmax)
    ensures forall j :: 0 <= j < |page.Contents()| && j != slot ==>
      RowAt(page.Contents(), j, schema) == old(RowAt(page.Contents(), j, schema))
  {
    hide DecodeTuple;
    hide Le;
    ghost var before := page.Contents();
    ok := page.SetTupleXmax(slot, xmax);
    ghost var mid := page.Contents();
    forall j | 0 <= j < |before|
      ensures RowAt(mid, j, schema) == if j == slot then WithXmax(RowAt(before, j, schema), xmax)
        else RowAt(before, j, schema)
    {
      OnlyXmaxDiffers(before, slot, xmax, schema, j);
    }
    match next {
      case None =>
      case Some(ctid) =>
        ok := page.SetTupleCtid(slot, ctid.page, ctid.slot);
        forall j | 0 <= j < |before|
          ensures RowAt(page.Contents(), j, schema) == if j == slot then WithCtid(RowAt(mid, j, schema), ctid)
            else RowAt(mid, j, schema)
        {
          OnlyCtidDiffers(mid, slot, ctid, schema, j);
        }
    }
  }
}
