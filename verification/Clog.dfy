/** The commit log: two status bits per transaction in lazily loaded 4 KiB pages. */
module CommitLog {
  import opened Common

  const PAGE_SIZE := 4096
  const TXNS_PER_PAGE := 16384

  type ClogPage = p: seq<bv8> | |p| == PAGE_SIZE witness seq(PAGE_SIZE, _ => 0)

  function ZeroPage(): ClogPage { seq(PAGE_SIZE, _ => 0) }

  function PageOf(t: TxnId): nat { t / TXNS_PER_PAGE }

  function ByteOf(t: TxnId): (off: nat)
    ensures off < PAGE_SIZE
  {
    (t % TXNS_PER_PAGE) / 4
  }

  function ShiftOf(t: TxnId): (shift: nat)
    ensures shift in {0, 2, 4, 6}
  {
    (t % 4) * 2
  }

  function ToBits(s: TxnStatus): bv8 {
    match s
    case InProgress => 0
    case Committed => 1
    case Aborted => 2
  }

  function FromBits(b: bv8): TxnStatus {
    if b == 1 then Committed else if b == 2 then Aborted else InProgress
  }

  function GetBits(b: bv8, shift: nat): bv8
    requires shift <= 6
  {
    (b >> shift) & 3
  }

  function PutBits(b: bv8, shift: nat, bits: bv8): bv8
    requires shift <= 6
  {
    (b & !((3 as bv8) << shift)) | (bits << shift)
  }

  /** The four two-bit fields of a byte are independent. */
  lemma PutGetBits(b: bv8, shift: nat, other: nat, bits: bv8)
    requires shift in {0, 2, 4, 6} && other in {0, 2, 4, 6} && bits < 4
    ensures GetBits(PutBits(b, shift, bits), other) == if other == shift then bits else GetBits(b, other)
  {
    if shift == 0 {
      PutGetAt(b, 0, bits);
    } else if shift == 2 {
      PutGetAt(b, 2, bits);
    } else if shift == 4 {
      PutGetAt(b, 4, bits);
    } else {
      PutGetAt(b, 6, bits);
    }
  }

  lemma PutGetAt(b: bv8, shift: nat, bits: bv8)
    requires shift in {0, 2, 4, 6} && bits < 4
    ensures var c := PutBits(b, shift, bits);
      && GetBits(c, 0) == (if shift == 0 then bits else GetBits(b, 0))
      && GetBits(c, 2) == (if shift == 2 then bits else GetBits(b, 2))
      && GetBits(c, 4) == (if shift == 4 then bits else GetBits(b, 4))
      && GetBits(c, 6) == (if shift == 6 then bits else GetBits(b, 6))
  {
  }

  /** Different transactions on one page use different (byte, shift) positions. */
  lemma PositionsDiffer(t: TxnId, u: TxnId)
    requires t != u && PageOf(t) == PageOf(u)
    ensures ByteOf(t) != ByteOf(u) || ShiftOf(t) != ShiftOf(u)
  {
    QuarterOf(t);
    QuarterOf(u);
  }

  lemma QuarterOf(t: TxnId)
    ensures t == PageOf(t) * TXNS_PER_PAGE + ByteOf(t) * 4 + ShiftOf(t) / 2
  {
    var a := t % TXNS_PER_PAGE;
    assert t == 4 * (4096 * PageOf(t)) + a;
    assert t % 4 == a % 4;
  }

  function PageStatus(page: ClogPage, t: TxnId): TxnStatus {
    FromBits(GetBits(page[ByteOf(t)], ShiftOf(t)))
  }

  /** What the file holds for page `p`: past its end every page reads as zeros. */
  function FilePage(file: seq<ClogPage>, p: nat): ClogPage {
    if p < |file| then file[p] else ZeroPage()
  }

  function FileStatus(file: seq<ClogPage>, t: TxnId): TxnStatus {
    PageStatus(FilePage(file, PageOf(t)), t)
  }

  /** The byte with number `i` of the file; 0 past its end. */
  function FileByte(file: seq<ClogPage>, i: nat): bv8 {
    FilePage(file, i / PAGE_SIZE)[i % PAGE_SIZE]
  }

  /** The layout of the file, in arithmetic: transaction `t` has field `t % 4` of byte `t / 4`, counted from the low
      end, where 1 says committed, 2 aborted and anything else in progress. */
  lemma FileLayout(file: seq<ClogPage>, t: TxnId)
    ensures FileStatus(file, t) ==
      match FileByte(file, t / 4)
            / (if t % 4 == 0 then 1 else if t % 4 == 1 then 4 else if t % 4 == 2 then 16 else 64) % 4
      case 1 => Committed
      case 2 => Aborted
      case _ => InProgress
  {
    QuarterOf(t);
    var i := t / 4;
    assert i == PageOf(t) * PAGE_SIZE + ByteOf(t);
    assert i / PAGE_SIZE == PageOf(t) && i % PAGE_SIZE == ByteOf(t);
    FieldOf(FilePage(file, PageOf(t))[ByteOf(t)]);
  }

  lemma FieldOf(b: bv8)
    ensures GetBits(b, 0) == b % 4 && GetBits(b, 2) == b / 4 % 4
    ensures GetBits(b, 4) == b / 16 % 4 && GetBits(b, 6) == b / 64 % 4
  {
  }

  /** Every id past the end of the file is in progress. */
  lemma BeyondInProgress(file: seq<ClogPage>, t: TxnId)
    requires t >= |file| * TXNS_PER_PAGE
    ensures FileStatus(file, t) == InProgress
  {
    assert PageOf(t) >= |file|;
    assert FilePage(file, PageOf(t))[ByteOf(t)] == 0;
  }

  /** A positioned write; writing past the end leaves a hole of zeros. */
  function WriteFile(file: seq<ClogPage>, p: nat, bytes: ClogPage): (r: seq<ClogPage>)
    ensures |r| == if p < |file| then |file| else p + 1
    ensures forall q: nat :: FilePage(r, q) == if q == p then bytes else FilePage(file, q)
    decreases p - |file|
  {
    if p < |file| then file[p := bytes]
    else if p == |file| then file + [bytes]
    else WriteFile(file + [ZeroPage()], p, bytes)
  }

  class Clog {
    var pages: map<nat, ClogPage>
    var dirty: set<nat>
    var onDiskPages: nat
    /** The contents of clog.db. */
    var file: seq<ClogPage>

    ghost predicate Valid()
      reads this
    {
      && onDiskPages == |file|
      && dirty <= pages.Keys
      && forall p :: p in pages && p !in dirty ==> pages[p] == FilePage(file, p)
    }

    /** The abstract value: a total map from transaction to status. */
    ghost function View(t: TxnId): TxnStatus
      reads this
    {
      if PageOf(t) in pages then PageStatus(pages[PageOf(t)], t) else FileStatus(file, t)
    }

    /** Opening a log shows exactly what its file holds. */
    constructor Open(clogFile: seq<ClogPage>)
      ensures Valid() && file == clogFile
      ensures forall t :: View(t) == FileStatus(clogFile, t)
    {
      pages, dirty := map[], {};
      onDiskPages := |clogFile|;
      file := clogFile;
    }

    method EnsureLoaded(p: nat)
      requires Valid()
      modifies this`pages
      ensures Valid() && p in pages
      ensures forall t :: View(t) == old(View(t))
    {
      if p in pages {
        return;
      }
      var buf := ZeroPage();
      if p < onDiskPages {
        buf := file[p];
      }
      pages := pages[p := buf];
    }

    method Get(t: TxnId) returns (s: TxnStatus)
      requires Valid()
      modifies this`pages
      ensures Valid()
      ensures s == old(View(t))
      ensures forall u :: View(u) == old(View(u))
    {
      EnsureLoaded(PageOf(t));
      var page := pages[PageOf(t)];
      s := FromBits(GetBits(page[ByteOf(t)], ShiftOf(t)));
    }

    method Set(t: TxnId, s: TxnStatus)
      requires Valid()
      modifies this`pages, this`dirty
      ensures Valid()
      ensures forall u :: View(u) == if u == t then s else old(View(u))
    {
      EnsureLoaded(PageOf(t));
      var page := pages[PageOf(t)];
      var byte := PutBits(page[ByteOf(t)], ShiftOf(t), ToBits(s));
      forall u | PageOf(u) == PageOf(t)
        ensures PageStatus(page[ByteOf(t) := byte], u) == if u == t then s else PageStatus(page, u)
      {
        PutGetBits(page[ByteOf(t)], ShiftOf(t), ShiftOf(u), ToBits(s));
        if u != t {
          PositionsDiffer(u, t);
        }
      }
      pages := pages[PageOf(t) := page[ByteOf(t) := byte]];
      dirty := dirty + {PageOf(t)};
    }

    /** After a flush the file alone answers every status, so a later `Open` of it loses nothing. */
    method Flush()
      requires Valid()
      modifies this`file, this`dirty, this`onDiskPages
      ensures Valid() && dirty == {}
      ensures forall t :: View(t) == old(View(t)) == FileStatus(file, t)
    {
      ghost var toWrite := dirty;
      while dirty != {}
        invariant Valid() && dirty <= toWrite
        invariant forall t :: View(t) == old(View(t))
        decreases |dirty|
      {
        var p: nat :| p in dirty;
        file := WriteFile(file, p, pages[p]);
        if p >= onDiskPages {
          onDiskPages := p + 1;
        }
        dirty := dirty - {p};
      }
    }
  }
}
