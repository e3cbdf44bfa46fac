/** Datatypes and identifiers shared by the modules of the model. */
module Common {
  datatype Option<+T> = None | Some(value: T)

  /** An operation of the program either answers or fails; the message is dropped. */
  datatype Result<+T> = Ok(value: T) | Err

  type TxnId = nat
  type Lsn = nat
  type PageId = nat

  /** Record identifier: a page and a slot inside it. */
  datatype Rid = Rid(page: PageId, slot: nat)

  /** `INVALID_TXN_ID`: the xmax of a row nobody has deleted. */
  const NO_TXN: TxnId := 0

  datatype TxnStatus = InProgress | Committed | Aborted

  /** Parts of equal slices are equal. */
  lemma SubSlice<T>(a: seq<T>, b: seq<T>, low: nat, mid: nat, high: nat)
    requires low <= mid <= high <= |a| && high <= |b| && a[low..high] == b[low..high]
    ensures a[low..mid] == b[low..mid]
  {
    assert a[low..mid] == a[low..high][..mid - low] && b[low..mid] == b[low..high][..mid - low];
  }

  lemma SliceOfTail<T>(f: seq<T>, p: nat, a: nat, b: nat)
    requires a <= b && p + b <= |f|
    ensures f[p..][a..b] == f[p + a..p + b] && f[p..][b..] == f[p + b..]
  {
  }
}
