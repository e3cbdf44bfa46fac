/** The log file: length-prefixed records, the buffer in front of it, and what a reader makes of the bytes. */
module WriteAheadLog {
  import opened Common
  import opened Bytes
  import opened WalCodec

  function Frame(body: seq<Byte>): (f: seq<Byte>)
    ensures |f| == 4 + |body|
  {
    Le(|body|, 4) + body
  }

  function Frames(bodies: seq<seq<Byte>>): seq<Byte> {
    if bodies == [] then [] else Frame(bodies[0]) + Frames(bodies[1..])
  }

  /** How many bytes a record takes without its length prefix. */
  function BodyLen(k: Kind): nat {
    25 + match k
         case Begin => 0
         case Commit => 0
         case Abort => 0
         case Insert(_, data) => 6 + |data|
         case Delete(_, _) => 14
         case Clr(_, UndoInsert(_)) => 15
         case Clr(_, UndoDelete(_, _)) => 23
         case Checkpoint(att, dpt) => 8 + 16 * |att| + 12 * |dpt|
         case IndexInsert(_, key, _) => 18 + |key|
         case SequenceAdvance(_, _) => 12
         case PageInit(_, _) => 5
  }

  predicate Sizable(k: Kind) {
    BodyLen(k) < 0x1_0000_0000
  }

  lemma EncodingLen(r: Record, b: seq<Byte>)
    requires IsEncoding(r, b)
    ensures |b| == BodyLen(r.kind) && (Sizable(r.kind) ==> LengthsFit(r.kind))
  {
    var att, dpt :| Orders(r.kind, att, dpt) && b == Layout(r, att, dpt);
    if r.kind.Checkpoint? {
      PutAllRebuilds(r.kind.att, att, map[]);
      PutAllRebuilds(r.kind.dpt, dpt, map[]);
    }
  }

  /** The bodies of a log's records, one each. */
  ghost predicate Bodies(records: seq<Record>, bodies: seq<seq<Byte>>) {
    |records| == |bodies| && forall i :: 0 <= i < |records| ==>
      IsEncoding(records[i], bodies[i]) && Sizable(records[i].kind)
  }

  /** `read_records`: stops quietly when fewer than four bytes are left, fails when a body is cut short or
      does not decode. */
  function ReadAll(f: seq<Byte>): Result<seq<Record>>
    decreases |f|
  {
    if |f| < 4 then Ok([]) else
    var n := GetU32(f[..4]);
    if |f| < 4 + n then Err else
    match ReadRecord(f[4..4 + n])
    case Err => Err
    case Ok(r) => Prepend([r], ReadAll(f[4 + n..]))
  }

  function Prepend(first: seq<Record>, rest: Result<seq<Record>>): Result<seq<Record>> {
    match rest
    case Err => Err
    case Ok(rs) => Ok(first + rs)
  }

  lemma PrependNone(rest: Result<seq<Record>>)
    ensures Prepend([], rest) == rest
  {
    if rest.Ok? {
      assert [] + rest.value == rest.value;
    }
  }

  lemma PrependTwice(a: seq<Record>, b: seq<Record>, rest: Result<seq<Record>>)
    ensures Prepend(a, Prepend(b, rest)) == Prepend(a + b, rest)
  {
    if rest.Ok? {
      assert a + (b + rest.value) == (a + b) + rest.value;
    }
  }

  /** Fills a checkpoint's two maps, moving an offset over the payload. */
  method DecodeCheckpoint(rest: seq<Byte>) returns (out: Result<Kind>)
    ensures out == ReadCheckpoint(rest)
  {
    if |rest| < 4 {
      return Err;
    }
    var attLen := GetU32(rest[0..4]);
    var p := 4;
    var att: map<U64, U64> := map[];
    var i := 0;
    while i < attLen
      invariant 0 <= i <= attLen && p <= |rest|
      invariant ReadAtt(attLen - i, rest[p..], att) == ReadAtt(attLen, rest[4..], map[])
    {
      if |rest| < p + 16 {
        return Err;
      }
      assert rest[p..][0..8] == rest[p..p + 8] && rest[p..][8..16] == rest[p + 8..p + 16] &&
        rest[p..][16..] == rest[p + 16..];
      att := att[GetU64(rest[p..p + 8]) := GetU64(rest[p + 8..p + 16])];
      p, i := p + 16, i + 1;
    }
    if |rest| < p + 4 {
      return Err;
    }
    ghost var more := rest[p..];
    assert more[0..4] == rest[p..p + 4] && more[4..] == rest[p + 4..];
    var dptLen := GetU32(rest[p..p + 4]);
    p := p + 4;
    var dpt: map<U32, U64> := map[];
    i := 0;
    while i < dptLen
      invariant 0 <= i <= dptLen && p <= |rest|
      invariant ReadDpt(dptLen - i, rest[p..], dpt) == ReadDpt(dptLen, more[4..], map[])
    {
      if |rest| < p + 12 {
        return Err;
      }
      assert rest[p..][0..4] == rest[p..p + 4] && rest[p..][4..12] == rest[p + 4..p + 12] &&
        rest[p..][12..] == rest[p + 12..];
      dpt := dpt[GetU32(rest[p..p + 4]) := GetU64(rest[p + 4..p + 12])];
      p, i := p + 12, i + 1;
    }
    out := Ok(Checkpoint(att, dpt));
  }

  method Decode(body: seq<Byte>) returns (out: Result<Record>)
    ensures out == ReadRecord(body)
  {
    if |body| < 25 {
      return Err;
    }
    var kind;
    if body[24] == 6 {
      kind := DecodeCheckpoint(body[25..]);
    } else {
      kind := ReadKind(body[24], body[25..]);
    }
    match kind {
      case Err => out := Err;
      case Ok(k) => out := Ok(Record(GetU64(body[0..8]), GetU64(body[8..16]), GetU64(body[16..24]), k));
    }
  }

  method ReadRecords(f: seq<Byte>) returns (out: Result<seq<Record>>)
    ensures out == ReadAll(f)
  {
    hide Le;
    hide ReadRecord;
    var records: seq<Record> := [];
    var pos := 0;
    assert f[0..] == f;
    PrependNone(ReadAll(f));
    while true
      invariant pos <= |f|
      invariant ReadAll(f) == Prepend(records, ReadAll(f[pos..]))
      decreases |f| - pos
    {
      if |f| - pos < 4 {
        assert records + [] == records;
        return Ok(records);
      }
      var n: int := GetU32(f[pos..pos + 4]);
      SliceOfTail(f, pos, 0, 4);
      if |f| - pos - 4 < n {
        return Err;
      }
      var body := f[pos + 4..pos + 4 + n];
      SliceOfTail(f, pos, 4, 4 + n);
      var decoded := Decode(body);
      match decoded {
        case Err => return Err;
        case Ok(r) =>
          PrependTwice(records, [r], ReadAll(f[pos + 4 + n..]));
          records := records + [r];
          pos := pos + 4 + n;
      }
    }
  }

  /** A whole record in front of `rest` is read, and reading goes on with `rest`. */
  lemma ReadFirst(r: Record, body: seq<Byte>, rest: seq<Byte>)
    requires IsEncoding(r, body) && Sizable(r.kind)
    ensures ReadAll(Frame(body) + rest) == Prepend([r], ReadAll(rest))
  {
    hide Le;
    EncodingLen(r, body);
    RecordRound(r, body);
    U32Round(|body|);
    var f := Frame(body) + rest;
    assert f[..4] == Le(|body|, 4) && f[4..4 + |body|] == body && f[4 + |body|..] == rest;
  }

  /** Reading a stream gives its records in order, then whatever the bytes after it give. */
  lemma {:induction false} StreamRound(records: seq<Record>, bodies: seq<seq<Byte>>, rest: seq<Byte>)
    requires Bodies(records, bodies)
    ensures ReadAll(Frames(bodies) + rest) == Prepend(records, ReadAll(rest))
    decreases |bodies|
  {
    hide ReadAll;
    hide Frame;
    hide IsEncoding;
    if bodies == [] {
      assert Frames(bodies) + rest == rest;
      PrependNone(ReadAll(rest));
    } else {
      var more := Frames(bodies[1..]) + rest;
      assert Frames(bodies) + rest == Frame(bodies[0]) + more;
      ReadFirst(records[0], bodies[0], more);
      StreamRound(records[1..], bodies[1..], rest);
      PrependTwice([records[0]], records[1..], ReadAll(rest));
      assert [records[0]] + records[1..] == records;
    }
  }

  /** A log cut off inside a record: a cut within the four length bytes goes unnoticed, a later cut is an error. */
  lemma TornTail(records: seq<Record>, bodies: seq<seq<Byte>>, k: nat, n: nat)
    requires Bodies(records, bodies) && k < |bodies| && n < |Frame(bodies[k])|
    ensures ReadAll(Frames(bodies[..k]) + Frame(bodies[k])[..n]) == if n < 4 then Ok(records[..k]) else Err
  {
    StreamRound(records[..k], bodies[..k], Frame(bodies[k])[..n]);
    EncodingLen(records[k], bodies[k]);
    if n >= 4 {
      U32Round(|bodies[k]|);
      assert Frame(bodies[k])[..n][..4] == Le(|bodies[k]|, 4);
    } else {
      assert records[..k] + [] == records[..k];
    }
  }

  lemma OneFrame(body: seq<Byte>)
    ensures Frames([body]) == Frame(body)
  {
    var bodies: seq<seq<Byte>> := [body];
    assert bodies[1..] == [];
  }

  lemma {:induction false} FramesAppend(a: seq<seq<Byte>>, b: seq<seq<Byte>>)
    ensures Frames(a + b) == Frames(a) + Frames(b)
  {
    if a == [] {
      assert a + b == b;
    } else {
      assert (a + b)[0] == a[0] && (a + b)[1..] == a[1..] + b;
      FramesAppend(a[1..], b);
    }
  }

  /** Every proper prefix of a log ends inside some record, or between two. */
  lemma {:induction false} CutPoint(bodies: seq<seq<Byte>>, cut: nat) returns (k: nat, n: nat)
    requires cut < |Frames(bodies)|
    ensures k < |bodies| && n < |Frame(bodies[k])|
    ensures Frames(bodies)[..cut] == Frames(bodies[..k]) + Frame(bodies[k])[..n]
    decreases |bodies|
  {
    var first := Frame(bodies[0]);
    if cut < |first| {
      k, n := 0, cut;
      assert Frames(bodies)[..cut] == first[..cut];
    } else {
      k, n := CutPoint(bodies[1..], cut - |first|);
      assert bodies[..k + 1][0] == bodies[0] && bodies[..k + 1][1..] == bodies[1..][..k];
      assert Frames(bodies)[..cut] == first + Frames(bodies[1..])[..cut - |first|];
      k := k + 1;
    }
  }

  /** Whatever part of the log file survives, what can be read of it is a prefix of what was appended. */
  lemma SurvivingPrefix(records: seq<Record>, bodies: seq<seq<Byte>>, cut: nat)
    requires Bodies(records, bodies) && cut <= |Frames(bodies)|
    ensures var r := ReadAll(Frames(bodies)[..cut]); r.Ok? ==> r.value <= records
    ensures ReadAll(Frames(bodies)) == Ok(records)
  {
    StreamRound(records, bodies, []);
    assert Frames(bodies) + [] == Frames(bodies) && records + [] == records;
    if cut == |Frames(bodies)| {
      assert Frames(bodies)[..cut] == Frames(bodies);
    } else {
      var k, n := CutPoint(bodies, cut);
      TornTail(records, bodies, k, n);
    }
  }

  lemma {:induction false} FramesGrow(bodies: seq<seq<Byte>>, a: nat, b: nat)
    requires a < b <= |bodies|
    ensures |Frames(bodies[..a])| + |Frame(bodies[a])| <= |Frames(bodies[..b])|
  {
    hide Frame;
    assert bodies[..b] == bodies[..b - 1] + [bodies[b - 1]];
    FramesAppend(bodies[..b - 1], [bodies[b - 1]]);
    OneFrame(bodies[b - 1]);
    if a < b - 1 {
      FramesGrow(bodies, a, b - 1);
    }
  }

  /** Byte `cut` lies at the end of a record or at most three bytes behind it. */
  ghost predicate AtBoundary(bodies: seq<seq<Byte>>, k: nat, cut: nat) {
    k <= |bodies| && |Frames(bodies[..k])| <= cut < |Frames(bodies[..k])| + 4
  }

  /** A log cut anywhere can be read, so that recovery starts, exactly when fewer than four bytes of a record are
      left over; then all whole records are read. */
  lemma CutReads(records: seq<Record>, bodies: seq<seq<Byte>>, cut: nat)
    requires Bodies(records, bodies) && cut <= |Frames(bodies)|
    ensures ReadAll(Frames(bodies)[..cut]).Ok? <==> exists k: nat :: AtBoundary(bodies, k, cut)
    ensures forall k: nat :: AtBoundary(bodies, k, cut) ==> ReadAll(Frames(bodies)[..cut]) == Ok(records[..k])
  {
    hide ReadAll;
    hide IsEncoding;
    hide Frames;
    if cut == |Frames(bodies)| {
      SurvivingPrefix(records, bodies, cut);
      assert bodies[..|bodies|] == bodies && Frames(bodies)[..cut] == Frames(bodies) && records[..|records|] == records;
      assert AtBoundary(bodies, |bodies|, cut);
      forall k: nat | AtBoundary(bodies, k, cut) ensures k == |bodies| {
        if k < |bodies| {
          FramesGrow(bodies, k, |bodies|);
        }
      }
    } else {
      var k, n := CutPoint(bodies, cut);
      TornTail(records, bodies, k, n);
      assert |Frames(bodies)[..cut]| == cut;
      assert n < 4 ==> AtBoundary(bodies, k, cut);
      forall j: nat | AtBoundary(bodies, j, cut) ensures j == k && n < 4 {
        if j < k {
          FramesGrow(bodies, j, k);
        } else if k < j {
          FramesGrow(bodies, k, j);
        }
      }
    }
  }

  /** A crash that leaves at least the forced part of the file loses no durable record, when the rest can be read. */
  lemma CrashKeepsDurable(bodies: seq<seq<Byte>>, durable: nat, k: nat, cut: nat)
    requires durable <= |bodies| && |Frames(bodies[..durable])| <= cut && AtBoundary(bodies, k, cut)
    ensures durable <= k
  {
    if k < durable {
      FramesGrow(bodies, k, durable);
    }
  }

  // ---- the encoder ----

  method EncodeAtt(m: map<U64, U64>) returns (b: seq<Byte>, ghost l: seq<(U64, U64)>)
    ensures Lists(m, l) && b == AttBytes(l)
  {
    b, l := [], [];
    var left := m;
    while left != map[]
      invariant left.Keys <= m.Keys && forall k :: k in left ==> left[k] == m[k]
      invariant Lists(m - left.Keys, l) && b == AttBytes(l)
      decreases |left|
    {
      var k :| k in left;
      AttAppend(l, k, left[k]);
      ListsMore(m, left, l, k);
      b := b + Le(k, 8) + Le(left[k], 8);
      l := l + [(k, left[k])];
      left := left - {k};
    }
    assert m - left.Keys == m;
  }

  method EncodeDpt(m: map<U32, U64>) returns (b: seq<Byte>, ghost l: seq<(U32, U64)>)
    ensures Lists(m, l) && b == DptBytes(l)
  {
    b, l := [], [];
    var left := m;
    while left != map[]
      invariant left.Keys <= m.Keys && forall k :: k in left ==> left[k] == m[k]
      invariant Lists(m - left.Keys, l) && b == DptBytes(l)
      decreases |left|
    {
      var k :| k in left;
      DptAppend(l, k, left[k]);
      ListsMore(m, left, l, k);
      b := b + Le(k, 4) + Le(left[k], 8);
      l := l + [(k, left[k])];
      left := left - {k};
    }
    assert m - left.Keys == m;
  }

  lemma ListsMore<K, V>(m: map<K, V>, left: map<K, V>, l: seq<(K, V)>, k: K)
    requires left.Keys <= m.Keys && k in left && left[k] == m[k] && Lists(m - left.Keys, l)
    ensures Lists(m - (left - {k}).Keys, l + [(k, left[k])])
  {
    var more := l + [(k, left[k])];
    forall x | x in m - (left - {k}).Keys ensures exists i :: 0 <= i < |more| && more[i].0 == x {
      if x == k {
        assert more[|l|].0 == k;
      } else {
        assert x in m - left.Keys;
        var i :| 0 <= i < |l| && l[i].0 == x;
        assert more[i].0 == x;
      }
    }
  }

  lemma {:induction false} AttAppend(l: seq<(U64, U64)>, k: U64, v: U64)
    ensures AttBytes(l + [(k, v)]) == AttBytes(l) + Le(k, 8) + Le(v, 8)
  {
    hide Le;
    var more := l + [(k, v)];
    if l == [] {
      assert more[1..] == [];
    } else {
      assert more[1..] == l[1..] + [(k, v)];
      AttAppend(l[1..], k, v);
    }
  }

  lemma {:induction false} DptAppend(l: seq<(U32, U64)>, k: U32, v: U64)
    ensures DptBytes(l + [(k, v)]) == DptBytes(l) + Le(k, 4) + Le(v, 8)
  {
    hide Le;
    var more := l + [(k, v)];
    if l == [] {
      assert more[1..] == [];
    } else {
      assert more[1..] == l[1..] + [(k, v)];
      DptAppend(l[1..], k, v);
    }
  }

  method EncodePayload(k: Kind) returns (buf: seq<Byte>, ghost att: seq<(U64, U64)>, ghost dpt: seq<(U32, U64)>)
    ensures Orders(k, att, dpt) && buf == Payload(k, att, dpt)
  {
    hide Le;
    hide RowBytes;
    hide Lists;
    buf, att, dpt := [], [], [];
    match k {
      case Begin =>
      case Commit =>
      case Abort =>
      case Insert(rid, data) =>
        buf := RowBytes(rid) + data;
      case Delete(rid, xmax) =>
        buf := RowBytes(rid) + Le(xmax, 8);
      case Clr(undoNext, redo) =>
        match redo {
          case UndoInsert(rid) => buf := Le(undoNext, 8) + [0] + RowBytes(rid);
          case UndoDelete(rid, was) => buf := Le(undoNext, 8) + [1] + RowBytes(rid) + Le(was, 8);
        }
      case Checkpoint(a, d) =>
        var attBytes, dptBytes;
        attBytes, att := EncodeAtt(a);
        dptBytes, dpt := EncodeDpt(d);
        PutAllRebuilds(a, att, map[]);
        PutAllRebuilds(d, dpt, map[]);
        buf := Le(|a|, 4) + attBytes + Le(|d|, 4) + dptBytes;
      case IndexInsert(indexId, key, rid) =>
        buf := Le(indexId, 8) + Le(|key|, 4) + key + RowBytes(rid);
      case SequenceAdvance(page, value) =>
        buf := Le(page, 4) + PutI64(value);
      case PageInit(page, pageKind) =>
        buf := Le(page, 4) + [pageKind];
    }
  }

  method EncodeRecord(r: Record) returns (buf: seq<Byte>)
    ensures IsEncoding(r, buf)
  {
    hide Le;
    hide Orders;
    hide Payload;
    buf := Le(r.lsn, 8) + Le(r.txn, 8) + Le(r.prev, 8) + [Tag(r.kind)];
    var payload, att, dpt := EncodePayload(r.kind);
    buf := buf + payload;
    assert Orders(r.kind, att, dpt) && buf == Layout(r, att, dpt);
  }

  // ---- the manager ----

  class WalManager {
    var nextLsn: Lsn
    var flushedLsn: Lsn

    /** What has been forced to the disk, and what still sits in the writer's buffer. */
    var file: seq<Byte>
    var buffered: seq<Byte>

    ghost var records: seq<Record>
    ghost var bodies: seq<seq<Byte>>

    ghost predicate Valid()
      reads this
    {
      && Bodies(records, bodies) && (forall i :: 0 <= i < |records| ==> records[i].lsn == i + 1)
      && nextLsn == |records| + 1 && flushedLsn <= |records|
      && file == Frames(bodies[..flushedLsn]) && buffered == Frames(bodies[flushedLsn..])
    }

    constructor ()
      ensures Valid() && records == [] && flushedLsn == 0
    {
      nextLsn, flushedLsn := 1, 0;
      file, buffered := [], [];
      records, bodies := [], [];
    }

    /** A log opened again on a file of whole records, with the next LSN that recovery found. */
    constructor Reopen(onDisk: seq<Byte>, next: Lsn, ghost was: seq<Record>, ghost wasBodies: seq<seq<Byte>>)
      requires Bodies(was, wasBodies) && onDisk == Frames(wasBodies) && next == |was| + 1
      requires forall i :: 0 <= i < |was| ==> was[i].lsn == i + 1
      ensures Valid() && records == was && file == onDisk && nextLsn == next && flushedLsn == next - 1
    {
      nextLsn, flushedLsn := next, next - 1;
      file, buffered := onDisk, [];
      records, bodies := was, wasBodies;
      new;
      assert bodies[..flushedLsn] == bodies && bodies[flushedLsn..] == [];
    }

    /** Adds a record behind all others; nothing becomes durable. */
    method Append(txn: U64, prev: U64, kind: Kind) returns (lsn: Lsn)
      requires Valid() && Sizable(kind) && nextLsn < 0x1_0000_0000_0000_0000
      modifies this`nextLsn, this`buffered, this`records, this`bodies
      ensures Valid() && lsn == old(nextLsn) && nextLsn == lsn + 1
      ensures records == old(records) + [Record(lsn, txn, prev, kind)]
      ensures file == old(file) && flushedLsn == old(flushedLsn)
    {
      hide Frames;
      hide Frame;
      hide IsEncoding;
      lsn := nextLsn;
      nextLsn := nextLsn + 1;
      var record := Record(lsn, txn, prev, kind);
      var body := EncodeRecord(record);
      buffered := buffered + Frame(body);
      FramesAppend(bodies[flushedLsn..], [body]);
      OneFrame(body);
      records, bodies := records + [record], bodies + [body];
      assert bodies[..flushedLsn] == old(bodies)[..flushedLsn];
      assert bodies[flushedLsn..] == old(bodies)[flushedLsn..] + [body];
    }

    method Flush()
      requires Valid()
      modifies this`flushedLsn, this`file, this`buffered
      ensures Valid() && flushedLsn == nextLsn - 1 && buffered == []
    {
      hide Frame;
      hide IsEncoding;
      if flushedLsn >= nextLsn - 1 {
        assert bodies[flushedLsn..] == [];
        return;
      }
      FramesAppend(bodies[..flushedLsn], bodies[flushedLsn..]);
      assert bodies[..flushedLsn] + bodies[flushedLsn..] == bodies;
      file := file + buffered;
      buffered := [];
      flushedLsn := nextLsn - 1;
      assert bodies[..flushedLsn] == bodies && bodies[flushedLsn..] == [];
    }

    method FlushTo(lsn: Lsn)
      requires Valid()
      modifies this`flushedLsn, this`file, this`buffered
      ensures Valid() && flushedLsn == if old(flushedLsn) >= lsn then old(flushedLsn) else nextLsn - 1
    {
      if flushedLsn < lsn {
        Flush();
      }
    }

    /** After a crash the file gives back exactly the records up to the durable LSN, in order. */
    method ReadBack() returns (out: Result<seq<Record>>)
      requires Valid()
      ensures out == Ok(records[..flushedLsn])
    {
      out := ReadRecords(file);
      SurvivingPrefix(records[..flushedLsn], bodies[..flushedLsn], |file|);
    }
  }
}
