/** Row locks: one queue per row, its steps and their order, and the table class that runs them. */
module Locks {
  import opened Common

  datatype LockMode = Shared | Exclusive

  datatype Request = Request(txn: TxnId, mode: LockMode)

  datatype LockState = LockState(holders: map<TxnId, LockMode>, queue: seq<Request>)

  const FREE := LockState(map[], [])

  predicate AllShared(holders: map<TxnId, LockMode>) {
    forall t :: t in holders ==> holders[t] == Shared
  }

  /** `can_grant`: re-requests and sole-holder upgrades first, then compatibility without passing a waiter. */
  predicate CanGrant(s: LockState, t: TxnId, mode: LockMode) {
    if t in s.holders then
      s.holders[t] == Exclusive || mode == Shared || |s.holders| == 1
    else
      s.queue == [] && (match mode case Shared => AllShared(s.holders) case Exclusive => s.holders == map[])
  }

  ghost predicate Waits(s: LockState, t: TxnId) {
    exists i :: 0 <= i < |s.queue| && s.queue[i].txn == t
  }

  /** What every use of the table keeps: an Exclusive holder is the only holder, and while anybody waits somebody
      holds the lock. */
  ghost predicate Exclusion(s: LockState) {
    && (forall t :: t in s.holders && s.holders[t] == Exclusive ==> forall u :: u in s.holders ==> u == t)
    && (s.queue != [] ==> s.holders != map[])
  }

  /** Nobody waits twice or for what it holds. */
  ghost predicate Orderly(s: LockState) {
    && (forall i :: 0 <= i < |s.queue| ==> s.queue[i].txn !in s.holders)
    && (forall i, j :: 0 <= i < j < |s.queue| ==> s.queue[i].txn != s.queue[j].txn)
  }

  /** The invariant of runs in which requests come when they may. */
  ghost predicate Inv(s: LockState) {
    Exclusion(s) && Orderly(s)
  }

  /** Whether a waiter may join the holders. */
  predicate Compatible(holders: map<TxnId, LockMode>, r: Request) {
    holders == map[] || (r.mode == Shared && AllShared(holders))
  }

  function Join(holders: map<TxnId, LockMode>, r: Request): map<TxnId, LockMode> {
    holders[r.txn := r.mode]
  }

  /** Whether `grant_waiting` grants a waiter: it may join, or it waits for the upgrade of the only lock. */
  predicate Grantable(holders: map<TxnId, LockMode>, r: Request) {
    if holders == map[] then true
    else match r.mode
      case Shared => AllShared(holders)
      case Exclusive => |holders| == 1 && r.txn in holders
  }

  /** `grant_waiting` from index `i`: grants what it can, skips blocked readers, stops at the first blocked writer. */
  function Walk(s: LockState, i: nat): (r: LockState)
    requires i <= |s.queue|
    decreases |s.queue| - i
  {
    if i == |s.queue| then s
    else if Grantable(s.holders, s.queue[i]) then
      Walk(LockState(Join(s.holders, s.queue[i]), s.queue[..i] + s.queue[i + 1..]), i)
    else if s.queue[i].mode == Exclusive then s
    else Walk(s, i + 1)
  }

  /** Grants from the front of the queue for as long as the next waiter is compatible. */
  function GrantPrefix(s: LockState): (r: LockState)
    decreases |s.queue|
  {
    if s.queue != [] && Compatible(s.holders, s.queue[0])
    then GrantPrefix(LockState(Join(s.holders, s.queue[0]), s.queue[1..]))
    else s
  }

  /** The holders after the first `k` waiters joined. */
  function JoinAll(holders: map<TxnId, LockMode>, granted: seq<Request>): map<TxnId, LockMode>
    decreases |granted|
  {
    if granted == [] then holders else JoinAll(Join(holders, granted[0]), granted[1..])
  }

  lemma {:induction false} GrantsKeepInv(s: LockState)
    requires Inv(LockState(s.holders, [])) && Orderly(s)
    ensures Inv(GrantPrefix(s))
    decreases |s.queue|
  {
    if s.queue != [] && Compatible(s.holders, s.queue[0]) {
      GrantsKeepInv(LockState(Join(s.holders, s.queue[0]), s.queue[1..]));
    }
  }

  lemma JoinOne(holders: map<TxnId, LockMode>, queue: seq<Request>, k: nat)
    requires k < |queue|
    ensures JoinAll(holders, queue[..k + 1]) == JoinAll(Join(holders, queue[0]), queue[1..][..k])
  {
    assert queue[..k + 1][1..] == queue[1..][..k];
  }

  /** How many waiters `GrantPrefix` grants. */
  ghost function Granted(s: LockState): (k: nat)
    ensures k <= |s.queue|
    decreases |s.queue|
  {
    if s.queue != [] && Compatible(s.holders, s.queue[0])
    then 1 + Granted(LockState(Join(s.holders, s.queue[0]), s.queue[1..]))
    else 0
  }

  lemma {:induction false} GrantedJoin(s: LockState)
    ensures GrantPrefix(s) == LockState(JoinAll(s.holders, s.queue[..Granted(s)]), s.queue[Granted(s)..])
    decreases |s.queue|
  {
    if s.queue != [] && Compatible(s.holders, s.queue[0]) {
      var rest := LockState(Join(s.holders, s.queue[0]), s.queue[1..]);
      GrantedJoin(rest);
      JoinOne(s.holders, s.queue, Granted(rest));
    }
  }

  lemma {:induction false} GrantedCompatible(s: LockState, i: nat)
    requires i <= Granted(s) && i < |s.queue|
    ensures Compatible(JoinAll(s.holders, s.queue[..i]), s.queue[i]) <==> i < Granted(s)
    decreases i
  {
    if i > 0 {
      JoinOne(s.holders, s.queue, i - 1);
      GrantedCompatible(LockState(Join(s.holders, s.queue[0]), s.queue[1..]), i - 1);
    }
  }

  lemma {:induction false} JoinedHolders(holders: map<TxnId, LockMode>, granted: seq<Request>)
    ensures forall t :: t in JoinAll(holders, granted) <==>
      t in holders || exists i :: 0 <= i < |granted| && granted[i].txn == t
    decreases |granted|
  {
    if granted != [] {
      var rest := granted[1..];
      JoinedHolders(Join(holders, granted[0]), rest);
      assert forall i :: 1 <= i < |granted| ==> granted[i] == rest[i - 1];
    }
  }

  /** `GrantPrefix` takes a prefix of the queue, all of it compatible, and stops only where the next waiter
      is not: the longest compatible prefix. */
  lemma GrantPrefixIsLongest(s: LockState) returns (k: nat)
    requires Inv(LockState(s.holders, [])) && Orderly(s)
    ensures k <= |s.queue|
    ensures GrantPrefix(s) == LockState(JoinAll(s.holders, s.queue[..k]), s.queue[k..])
    ensures forall i :: 0 <= i < k ==> Compatible(JoinAll(s.holders, s.queue[..i]), s.queue[i])
    ensures k < |s.queue| ==> !Compatible(JoinAll(s.holders, s.queue[..k]), s.queue[k])
    ensures Inv(GrantPrefix(s))
    ensures forall t :: t in GrantPrefix(s).holders <==>
      t in s.holders || exists i :: 0 <= i < k && s.queue[i].txn == t
  {
    hide Compatible;
    hide JoinAll;
    hide Inv;
    k := Granted(s);
    GrantsKeepInv(s);
    GrantedJoin(s);
    JoinedHolders(s.holders, s.queue[..k]);
    forall i | 0 <= i <= k && i < |s.queue|
      ensures Compatible(JoinAll(s.holders, s.queue[..i]), s.queue[i]) <==> i < k
    {
      GrantedCompatible(s, i);
    }
  }

  /** With a lock granted and not Shared, the walk grants nobody. */
  lemma {:induction false} WalkStuck(s: LockState, i: nat)
    requires Orderly(s) && i <= |s.queue| && s.holders != map[] && !AllShared(s.holders)
    ensures Walk(s, i) == s
    decreases |s.queue| - i
  {
    if i < |s.queue| && s.queue[i].mode == Shared {
      WalkStuck(s, i + 1);
    }
  }

  /** In an orderly queue the walk grants just the longest compatible prefix. */
  lemma {:induction false} WalkIsPrefix(s: LockState)
    requires Orderly(s)
    ensures Walk(s, 0) == GrantPrefix(s)
    decreases |s.queue|
  {
    if s.queue != [] {
      var rest := LockState(Join(s.holders, s.queue[0]), s.queue[1..]);
      assert s.queue[..0] + s.queue[1..] == rest.queue;
      if Compatible(s.holders, s.queue[0]) {
        WalkIsPrefix(rest);
      } else if s.queue[0].mode == Shared {
        WalkStuck(s, 1);
      }
    }
  }

  // The steps a row's lock goes through. A request never comes from a waiter (its thread is blocked), and an
  // upgrade is asked for only by a sole holder.

  predicate MayRequest(s: LockState, t: TxnId, mode: LockMode) {
    && (forall i :: 0 <= i < |s.queue| ==> s.queue[i].txn != t)
    && (t in s.holders ==> CanGrant(s, t, mode))
  }

  function Requested(s: LockState, t: TxnId, mode: LockMode): LockState {
    if CanGrant(s, t, mode) then s.(holders := s.holders[t := mode])
    else s.(queue := s.queue + [Request(t, mode)])
  }

  function Without(queue: seq<Request>, t: TxnId): (r: seq<Request>)
    ensures forall x :: x in r <==> x in queue && x.txn != t
  {
    if queue == [] then []
    else if queue[0].txn == t then Without(queue[1..], t)
    else [queue[0]] + Without(queue[1..], t)
  }

  function TimedOut(s: LockState, t: TxnId): LockState {
    s.(queue := Without(s.queue, t))
  }

  function Unlocked(s: LockState, t: TxnId): LockState {
    Walk(s.(holders := s.holders - {t}), 0)
  }

  datatype Event =
    | Ask(txn: TxnId, mode: LockMode)
    | GiveUp(txn: TxnId)
    | Unlock(txn: TxnId)

  predicate Enabled(s: LockState, e: Event) {
    match e
    case Ask(t, mode) => MayRequest(s, t, mode)
    case GiveUp(t) => t !in s.holders
    case Unlock(t) => forall i :: 0 <= i < |s.queue| ==> s.queue[i].txn != t
  }

  function After(s: LockState, e: Event): LockState {
    match e
    case Ask(t, mode) => Requested(s, t, mode)
    case GiveUp(t) => TimedOut(s, t)
    case Unlock(t) => Unlocked(s, t)
  }

  /** In the queue every request of `early` stands in front of every request of `late`. */
  ghost predicate InFront(queue: seq<Request>, early: TxnId, late: TxnId) {
    forall x, y :: 0 <= x < |queue| && 0 <= y < |queue| && queue[x].txn == early && queue[y].txn == late ==> x < y
  }

  /** `early` waits, and `late` neither has the lock nor waits in front of it. */
  ghost predicate Ahead(s: LockState, early: TxnId, late: TxnId) {
    Waits(s, early) && late !in s.holders && InFront(s.queue, early, late)
  }

  lemma {:induction false} WithoutKeeps(queue: seq<Request>, t: TxnId)
    requires forall i, j :: 0 <= i < j < |queue| ==> queue[i].txn != queue[j].txn
    ensures forall i, j :: 0 <= i < j < |Without(queue, t)| ==> Without(queue, t)[i].txn != Without(queue, t)[j].txn
  {
    if queue != [] {
      var rest := Without(queue[1..], t);
      WithoutKeeps(queue[1..], t);
      assert forall y :: 0 <= y < |rest| ==> rest[y] in queue[1..];
    }
  }

  lemma {:induction false} WithoutKeepsOrder(queue: seq<Request>, t: TxnId, u: TxnId, v: TxnId)
    requires InFront(queue, u, v)
    ensures InFront(Without(queue, t), u, v)
  {
    if queue != [] {
      assert InFront(queue[1..], u, v);
      WithoutKeepsOrder(queue[1..], t, u, v);
      var rest := Without(queue[1..], t);
      assert forall y :: 0 <= y < |rest| ==> rest[y] in queue[1..];
    }
  }

  lemma TimedOutKeeps(s: LockState, t: TxnId)
    requires Inv(s) && t !in s.holders
    ensures Inv(TimedOut(s, t))
    ensures forall u, v :: Ahead(s, u, v) ==> u == t || Ahead(TimedOut(s, t), u, v)
  {
    WithoutKeeps(s.queue, t);
    var q := Without(s.queue, t);
    assert forall i :: 0 <= i < |q| ==> q[i] in s.queue;
    forall u, v | Ahead(s, u, v) && u != t ensures Ahead(TimedOut(s, t), u, v) {
      WithoutKeepsOrder(s.queue, t, u, v);
      var i :| 0 <= i < |s.queue| && s.queue[i].txn == u;
      assert s.queue[i] in q;
    }
  }

  lemma UnlockKeeps(s: LockState, t: TxnId)
    requires Inv(s) && Enabled(s, Unlock(t))
    ensures Inv(Unlocked(s, t)) && t !in Unlocked(s, t).holders
    ensures forall u :: u in s.holders && u != t ==> u in Unlocked(s, t).holders
    ensures forall u :: u in Unlocked(s, t).holders ==>
      u in s.holders || exists i :: 0 <= i < |s.queue| && s.queue[i].txn == u
    ensures forall u, v :: Ahead(s, u, v) ==> u in Unlocked(s, t).holders || Ahead(Unlocked(s, t), u, v)
  {
    hide GrantPrefix;
    hide Walk;
    hide JoinAll;
    hide Compatible;
    hide InFront;
    hide Waits;
    WalkIsPrefix(s.(holders := s.holders - {t}));
    var k := GrantPrefixIsLongest(s.(holders := s.holders - {t}));
    var s' := Unlocked(s, t);
    forall u, v | Ahead(s, u, v) && u !in s'.holders ensures Ahead(s', u, v) {
      AheadAfterGrants(s, s', k, t, u, v);
    }
  }

  lemma AheadAfterGrants(s: LockState, s': LockState, k: nat, t: TxnId, u: TxnId, v: TxnId)
    requires k <= |s.queue| && s'.queue == s.queue[k..] && Ahead(s, u, v) && u !in s'.holders
    requires forall x :: x in s'.holders ==> x in s.holders || exists i :: 0 <= i < k && s.queue[i].txn == x
    requires forall i :: 0 <= i < k ==> s.queue[i].txn in s'.holders
    ensures Ahead(s', u, v)
  {
    var i :| 0 <= i < |s.queue| && s.queue[i].txn == u;
    assert s'.queue[i - k] == s.queue[i];
  }

  lemma SoleHolder(holders: map<TxnId, LockMode>, t: TxnId)
    ensures t in holders && |holders| == 1 ==> forall u :: u in holders ==> u == t
  {
    if t in holders && |holders| == 1 {
      assert |holders.Keys - {t}| == 0;
      assert forall u :: u in holders && u != t ==> u in holders.Keys - {t};
    }
  }

  /** One step keeps the invariant, and nobody passes a waiter that is neither granted nor gives up. */
  lemma StepKeeps(s: LockState, e: Event)
    requires Inv(s) && Enabled(s, e)
    ensures Inv(After(s, e))
    ensures forall u, v :: Ahead(s, u, v) ==>
      u in After(s, e).holders || e == GiveUp(u) || Ahead(After(s, e), u, v)
  {
    match e
    case Ask(t, mode) =>
      var s' := After(s, e);
      SoleHolder(s.holders, t);
      forall u, v | Ahead(s, u, v) && u !in s'.holders ensures Ahead(s', u, v) {
        var i :| 0 <= i < |s.queue| && s.queue[i].txn == u;
        assert s'.queue[i] == s.queue[i];
      }
    case GiveUp(t) => TimedOutKeeps(s, t);
    case Unlock(t) => UnlockKeeps(s, t);
  }

  ghost predicate IsRun(run: seq<LockState>, events: seq<Event>) {
    && |run| == |events| + 1
    && run[0] == FREE
    && forall i :: 0 <= i < |events| ==> Enabled(run[i], events[i]) && run[i + 1] == After(run[i], events[i])
  }

  /** In every run of one row's lock the invariant holds throughout. */
  lemma {:induction false} RunSafe(run: seq<LockState>, events: seq<Event>, n: nat)
    requires IsRun(run, events) && n < |run|
    ensures Inv(run[n])
  {
    if n > 0 {
      RunSafe(run, events, n - 1);
      StepKeeps(run[n - 1], events[n - 1]);
    }
  }

  /** First come, first served: whoever did not have the lock and was not in front of a waiter gets it only
      after that waiter was granted it or gave up. */
  lemma {:induction false} FirstComeFirstServed(run: seq<LockState>, events: seq<Event>, i: nat, j: nat,
                                                early: TxnId, late: TxnId) returns (m: nat)
    requires IsRun(run, events) && i <= j < |run| && Ahead(run[i], early, late)
    requires late in run[j].holders
    ensures i < m <= j && (early in run[m].holders || events[m - 1] == GiveUp(early))
    decreases j - i
  {
    RunSafe(run, events, i);
    StepKeeps(run[i], events[i]);
    m := i + 1;
    if early !in run[m].holders && events[i] != GiveUp(early) {
      m := FirstComeFirstServed(run, events, m, j, early, late);
    }
  }

  // ---- who is served, in terms of conflicts ----

  /** Somebody else's lock stands in the way: two locks agree only when both are Shared. */
  ghost predicate Conflicts(holders: map<TxnId, LockMode>, t: TxnId, mode: LockMode) {
    exists u :: u in holders && u != t && (mode == Exclusive || holders[u] == Exclusive)
  }

  /** A request is granted at once exactly when no lock of somebody else conflicts with it and, unless it comes from a
      holder, nobody waits. */
  lemma GrantedExactly(s: LockState, t: TxnId, mode: LockMode)
    requires Inv(s)
    ensures CanGrant(s, t, mode) <==> !Conflicts(s.holders, t, mode) && (t in s.holders || s.queue == [])
  {
    SoleHolder(s.holders, t);
    if t in s.holders && forall u :: u in s.holders ==> u == t {
      assert s.holders.Keys == {t};
    }
    if t !in s.holders && s.queue == [] && s.holders != map[] && mode == Exclusive {
      var u :| u in s.holders;
      assert Conflicts(s.holders, t, mode);
    }
  }

  /** Whoever waits in front waits because of a conflict. */
  ghost predicate FrontBlocked(s: LockState) {
    s.queue != [] ==> Conflicts(s.holders, s.queue[0].txn, s.queue[0].mode)
  }

  /** An unlock leaves nobody waiting in front who could go on, and the unlock of the last holder lets the first
      waiter go on. */
  lemma UnlockServes(s: LockState, t: TxnId)
    requires Inv(s) && Enabled(s, Unlock(t))
    ensures FrontBlocked(Unlocked(s, t))
    ensures s.queue != [] && s.holders.Keys == {t} ==> s.queue[0].txn in Unlocked(s, t).holders
  {
    var left := s.(holders := s.holders - {t});
    WalkIsPrefix(left);
    var k := GrantPrefixIsLongest(left);
    var s' := Unlocked(s, t);
    if s'.queue != [] {
      IncompatibleConflicts(s', s.queue[k]);
    }
    if s.queue != [] && s.holders.Keys == {t} {
      assert left.holders == map[];
      assert k > 0;
    }
  }

  lemma IncompatibleConflicts(s: LockState, r: Request)
    requires Inv(s) && s.queue != [] && r == s.queue[0] && !Compatible(s.holders, r)
    ensures Conflicts(s.holders, r.txn, r.mode)
  {
    var u :| u in s.holders && (r.mode == Exclusive || s.holders[u] == Exclusive);
    assert u != r.txn;
  }

  /** A lock that is Exclusive becomes Shared. */
  ghost predicate Downgrades(s: LockState, e: Event) {
    e.Ask? && e.mode == Shared && HoldsExclusive(s, e.txn)
  }

  /** So it stays along every event but two, which wake nobody: a waiter that gives up, and a downgrade. */
  lemma FrontStaysBlocked(s: LockState, e: Event)
    requires Inv(s) && Enabled(s, e) && FrontBlocked(s) && !e.GiveUp? && !Downgrades(s, e)
    ensures FrontBlocked(After(s, e))
  {
    match e
    case Ask(t, mode) =>
      GrantedExactly(s, t, mode);
      if s.queue != [] {
        var u :| u in s.holders && u != s.queue[0].txn && (s.queue[0].mode == Exclusive || s.holders[u] == Exclusive);
        assert u in After(s, e).holders;
      }
    case Unlock(t) => UnlockServes(s, t);
  }

  /** After those two a waiter may be left in front that nothing stands in the way of. */
  lemma LostWakeups(t: TxnId, u: TxnId, v: TxnId)
    requires t != u && u != v && t != v
    ensures var s := LockState(map[t := Shared], [Request(u, Exclusive), Request(v, Shared)]);
      Inv(s) && FrontBlocked(s) && Enabled(s, GiveUp(u)) && !FrontBlocked(After(s, GiveUp(u)))
    ensures var s := LockState(map[t := Exclusive], [Request(v, Shared)]);
      Inv(s) && FrontBlocked(s) && Enabled(s, Ask(t, Shared)) && !FrontBlocked(After(s, Ask(t, Shared)))
  {
    var s := LockState(map[t := Shared], [Request(u, Exclusive), Request(v, Shared)]);
    assert Conflicts(s.holders, u, Exclusive) by {
      assert t in s.holders;
    }
    var last := [Request(v, Shared)];
    assert s.queue[1..] == last && last[1..] == [] && Without([], u) == [];
    assert Without(last, u) == last;
    var s2 := LockState(map[t := Exclusive], [Request(v, Shared)]);
    assert Conflicts(s2.holders, v, Shared) by {
      assert t in s2.holders;
    }
  }

  ghost predicate HoldsExclusive(s: LockState, t: TxnId) {
    t in s.holders && s.holders[t] == Exclusive
  }

  /** Events after which an Exclusive holder no longer is one: its own Shared re-request, and its unlock. */
  predicate Weakens(e: Event, t: TxnId) {
    e == Ask(t, Shared) || e == Unlock(t)
  }

  /** An Exclusive lock survives a step exactly when the step is not one of those two. */
  lemma ExclusiveStays(s: LockState, e: Event, t: TxnId)
    requires Inv(s) && Enabled(s, e) && HoldsExclusive(s, t)
    ensures HoldsExclusive(After(s, e), t) <==> !Weakens(e, t)
  {
    StepKeeps(s, e);
    match e
    case Ask(u, mode) =>
    case GiveUp(u) =>
    case Unlock(u) =>
      UnlockKeeps(s, u);
      if u != t {
        assert u !in s.holders;
        assert s.holders - {u} == s.holders;
        assert !AllShared(s.holders);
        WalkStuck(s, 0);
      }
  }

  /** Along a run an Exclusive holder keeps its lock without a break exactly as long as it neither asks for a
      Shared one nor unlocks. */
  lemma {:induction false} ExclusiveLasts(run: seq<LockState>, events: seq<Event>, i: nat, j: nat, t: TxnId)
    requires IsRun(run, events) && i <= j < |run| && HoldsExclusive(run[i], t)
    ensures (forall n :: i <= n <= j ==> HoldsExclusive(run[n], t)) <==>
            (forall n :: i <= n < j ==> !Weakens(events[n], t))
    decreases j
  {
    if i < j {
      ExclusiveLasts(run, events, i, j - 1, t);
      if forall n :: i <= n <= j - 1 ==> HoldsExclusive(run[n], t) {
        RunSafe(run, events, j - 1);
        ExclusiveStays(run[j - 1], events[j - 1], t);
        assert run[j] == After(run[j - 1], events[j - 1]);
      } else {
        var n :| i <= n < j - 1 && Weakens(events[n], t);
      }
    }
  }

  /** Which requests the invariant bears: exactly those of a transaction that is not waiting already and, when it
      holds the row, is granted what it asks. An upgrade beside other holders would wait for what it holds. */
  lemma RequestKeepsExactly(s: LockState, t: TxnId, mode: LockMode)
    requires Inv(s)
    ensures Inv(Requested(s, t, mode)) <==> MayRequest(s, t, mode)
  {
    if MayRequest(s, t, mode) {
      StepKeeps(s, Ask(t, mode));
    } else {
      var s' := Requested(s, t, mode);
      if i :| 0 <= i < |s.queue| && s.queue[i].txn == t {
        assert s'.queue[i].txn == t && s'.queue[|s.queue|].txn == t;
      } else {
        assert s'.queue[|s.queue|].txn == t;
      }
    }
  }

  /** A holder's request always returns, because `lock` waits only for non-holders. It then holds what it asked
      for exactly when the request was granted: not after an upgrade beside other holders. */
  lemma HolderGetsWhatItAsked(s: LockState, t: TxnId, mode: LockMode)
    requires Inv(s) && t in s.holders
    ensures var s' := Requested(s, t, mode);
      && t in s'.holders
      && ((mode == Exclusive ==> HoldsExclusive(s', t)) <==> CanGrant(s, t, mode))
  {
  }

  /** A Shared re-request by an Exclusive holder is granted and weakens its lock. */
  lemma ReRequestDowngrades(t: TxnId, u: TxnId)
    requires t != u
    ensures var s := Requested(Requested(FREE, t, Exclusive), t, Shared);
      Inv(s) && CanGrant(s, u, Shared) && s.holders == map[t := Shared]
  {
    assert Requested(FREE, t, Exclusive).holders == map[t := Exclusive];
    assert Requested(Requested(FREE, t, Exclusive), t, Shared).holders == map[t := Shared];
  }

  // Any transaction may ask for anything, also while it waits and also for an upgrade beside other holders.

  lemma {:induction false} WalkExcludes(s: LockState, i: nat)
    requires i <= |s.queue| && Exclusion(s.(queue := []))
    requires s.holders == map[] ==> i == 0
    ensures Exclusion(Walk(s, i))
    decreases |s.queue| - i
  {
    if i < |s.queue| {
      var r := s.queue[i];
      if Grantable(s.holders, r) {
        SoleHolder(s.holders, r.txn);
        WalkExcludes(LockState(Join(s.holders, r), s.queue[..i] + s.queue[i + 1..]), i);
      } else if r.mode == Shared {
        WalkExcludes(s, i + 1);
      }
    }
  }

  /** No request, however ill-timed, no timeout and no unlock breaks mutual exclusion or leaves waiters behind on a
      row without a holder. */
  lemma ExclusionStays(s: LockState, e: Event)
    requires Exclusion(s)
    ensures Exclusion(After(s, e))
  {
    match e
    case Ask(t, mode) => SoleHolder(s.holders, t);
    case GiveUp(t) =>
    case Unlock(t) => WalkExcludes(s.(holders := s.holders - {t}), 0);
  }

  /** In every run of arbitrary events an Exclusive holder is alone, and a row with waiters has a holder. */
  lemma {:induction false} MutualExclusion(run: seq<LockState>, events: seq<Event>, n: nat)
    requires |run| == |events| + 1 && run[0] == FREE && n < |run|
    requires forall i :: 0 <= i < |events| ==> run[i + 1] == After(run[i], events[i])
    ensures Exclusion(run[n])
  {
    if n > 0 {
      MutualExclusion(run, events, n - 1);
      ExclusionStays(run[n - 1], events[n - 1]);
    }
  }

  /** `grant_waiting`: the index moves past blocked readers, and granted requests are removed. */
  method GrantWaiting(s: LockState) returns (r: LockState)
    ensures r == Walk(s, 0)
    ensures Orderly(s) ==> r == GrantPrefix(s)
  {
    if Orderly(s) {
      WalkIsPrefix(s);
    }
    hide GrantPrefix;
    r := s;
    var i := 0;
    while i < |r.queue|
      invariant i <= |r.queue| && Walk(r, i) == Walk(s, 0)
      decreases |r.queue| - i
    {
      var req := r.queue[i];
      var grantable :=
        if r.holders == map[] then true
        else match req.mode
          case Shared => AllShared(r.holders)
          case Exclusive => |r.holders| == 1 && req.txn in r.holders;
      if grantable {
        r := LockState(r.holders[req.txn := req.mode], r.queue[..i] + r.queue[i + 1..]);
      } else {
        if req.mode == Exclusive {
          break;
        }
        i := i + 1;
      }
    }
  }

  function LockOf(table: map<Rid, LockState>, rid: Rid): LockState {
    if rid in table then table[rid] else FREE
  }

  class LockManager {
    var table: map<Rid, LockState>

    ghost predicate Valid()
      reads this
    {
      forall rid :: rid in table ==> Exclusion(table[rid])
    }

    /** Every row's lock keeps its queue in order too. */
    ghost predicate Fair()
      reads this
    {
      forall rid :: rid in table ==> Inv(table[rid])
    }

    constructor ()
      ensures Valid() && Fair() && table == map[]
    {
      table := map[];
    }

    /** The part of `lock` before the thread sleeps: granted at once, or enqueued. A holder does not sleep, so it
        returns at once even when its upgrade was only enqueued. */
    method Lock(t: TxnId, rid: Rid, mode: LockMode) returns (granted: bool)
      requires Valid()
      modifies this
      ensures table == old(table)[rid := Requested(LockOf(old(table), rid), t, mode)]
      ensures granted == (t in LockOf(table, rid).holders)
      ensures Valid() && (old(Fair()) ==> (Fair() <==> MayRequest(LockOf(old(table), rid), t, mode)))
    {
      var state := LockOf(table, rid);
      ExclusionStays(state, Ask(t, mode));
      if Fair() {
        RequestKeepsExactly(state, t, mode);
      }
      if CanGrant(state, t, mode) {
        table := table[rid := state.(holders := state.holders[t := mode])];
      } else {
        table := table[rid := state.(queue := state.queue + [Request(t, mode)])];
      }
      granted := t in table[rid].holders;
    }

    /** The sleep ended without a grant: the request leaves the queue. */
    method WaitTimedOut(t: TxnId, rid: Rid)
      requires Valid() && t !in LockOf(table, rid).holders
      modifies this
      ensures Valid() && (old(Fair()) ==> Fair()) && LockOf(table, rid) == TimedOut(LockOf(old(table), rid), t)
      ensures forall other :: other != rid ==> LockOf(table, other) == LockOf(old(table), other)
    {
      ExclusionStays(LockOf(table, rid), GiveUp(t));
      if Fair() {
        StepKeeps(LockOf(table, rid), GiveUp(t));
      }
      if rid in table {
        table := table[rid := TimedOut(table[rid], t)];
      }
    }

    /** Releases the rows in `held`, grants what can be granted and drops rows that nobody uses any more. */
    method UnlockAll(t: TxnId, held: set<Rid>)
      requires Valid()
      modifies this
      ensures Valid()
      ensures forall rid ::
        LockOf(table, rid) == (if rid in held then Unlocked(LockOf(old(table), rid), t) else LockOf(old(table), rid))
      ensures old(Fair()) && (forall rid :: rid in held ==> Enabled(LockOf(old(table), rid), Unlock(t))) ==> Fair()
    {
      hide Walk;
      hide Exclusion;
      var rest := held;
      while rest != {}
        invariant rest <= held && Valid()
        invariant forall rid ::
          LockOf(table, rid) ==
          (if rid in held - rest then Unlocked(LockOf(old(table), rid), t) else LockOf(old(table), rid))
        decreases |rest|
      {
        var rid :| rid in rest;
        rest := rest - {rid};
        UnlockRow(t, rid);
      }
      if old(Fair()) && forall rid :: rid in held ==> Enabled(LockOf(old(table), rid), Unlock(t)) {
        forall rid | rid in table ensures Inv(table[rid]) {
          FreeIsInv();
          assert LockOf(table, rid) == table[rid];
          assert Inv(LockOf(old(table), rid));
          if rid in held {
            StepKeeps(LockOf(old(table), rid), Unlock(t));
          }
        }
      }
    }

    /** One row of `unlock_all`. */
    method UnlockRow(t: TxnId, rid: Rid)
      requires Valid()
      modifies this
      ensures Valid() && LockOf(table, rid) == Unlocked(LockOf(old(table), rid), t)
      ensures forall other :: other != rid ==> LockOf(table, other) == LockOf(old(table), other)
    {
      ExclusionStays(LockOf(table, rid), Unlock(t));
      if rid in table {
        var state := GrantWaiting(table[rid].(holders := table[rid].holders - {t}));
        if state.holders == map[] && state.queue == [] {
          table := table - {rid};
        } else {
          table := table[rid := state];
        }
      }
    }
  }

  lemma FreeIsInv()
    ensures Inv(FREE)
  {
  }
}
