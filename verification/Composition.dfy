/** The buffer pool inside the whole engine: what the pool does on its own is a run of write-back steps of the crash
    model, and what it does for transactions are that model's other steps, so that the log-before-page rule proved of
    the pool is the one that crash safety rests on. */
module Composition {
  import opened Common
  import opened HeapLog
  import opened CrashRecovery
  import B = BufferPool
  import P = PageBytes
  import HeapPages

  /** The bytes of a page stand for this page of the engine. */
  ghost predicate Stands(d: P.Image, h: HeapPage) {
    HeapPages.IsHeap(d) && HeapPages.PageOf(d) == h
  }

  /** The engine's pages are what the pool shows, its last images are what the pool's disk holds, and the log is
      durable as far. */
  ghost predicate Represents(c: B.Core, s: Db) {
    && |c.disk| == |s.pages| == |s.disk| && c.logged == |s.log| && c.flushed == s.flushed
    && (forall p :: 0 <= p < |c.disk| ==> Stands(B.View(c)[p], s.pages[p]))
    && (forall p :: 0 <= p < |c.disk| ==> s.disk[p] != [] && Stands(c.disk[p], s.disk[p][|s.disk[p]| - 1]))
  }

  /** A page's way to disk, by eviction or flush, is a `WriteBack` action of the engine. */
  lemma WriteBackIsAction(c: B.Core, c': B.Core, p: PageId, s: Db) returns (s': Db)
    requires Represents(c, s) && B.WroteBack(c, c', p)
    ensures Does(s, s', WriteBack(p)) && Represents(c', s')
  {
    hide B.View;
    hide HeapPages.IsHeap;
    var d := B.View(c)[p];
    assert Stands(d, s.pages[p]) && P.PageLsn(d) == s.pages[p].lsn;
    hide HeapPages.PageOf;
    hide P.PageLsn;
    var durable := if s.flushed >= s.pages[p].lsn then s.flushed else |s.log|;
    s' := s.(flushed := durable, disk := Written(s.disk, p, s.pages[p]));
  }

  ghost predicate OwnStep(s: Db, s': Db, a: Option<Action>) {
    if a == None then s' == s else a.value.WriteBack? && Does(s, s', a.value)
  }

  /** Whatever the pool does on its own is an action of the engine or none: the eviction of a dirty frame, of a clean
      one, a fetch with an eviction in it, a flushed page, a released pin. */
  lemma MoveIsAction(c: B.Core, c': B.Core, s: Db) returns (s': Db, a: Option<Action>)
    requires Represents(c, s) && B.Moved(c, c')
    ensures Represents(c', s') && s'.log == s.log && s'.pages == s.pages
    ensures OwnStep(s, s', a)
  {
    hide Stands;
    hide B.View;
    if B.Quiet(c, c') {
      s', a := s, None;
    } else {
      var p: PageId :| B.WroteBack(c, c', p);
      s' := WriteBackIsAction(c, c', p, s);
      a := Some(WriteBack(p));
    }
  }

  /** One state of the engine for each state of the pool, each following from the one before by a write-back or not
      at all. */
  ghost predicate Follows(cs: seq<B.Core>, dbs: seq<Db>, acts: seq<Option<Action>>) {
    && |dbs| == |cs| == |acts| + 1
    && (forall i :: 0 <= i < |cs| ==> Represents(cs[i], dbs[i]))
    && forall i :: 0 <= i < |acts| ==> OwnStep(dbs[i], dbs[i + 1], acts[i])
  }

  /** Every run of the pool on its own, as long as it may be, is a run of the engine, and the engine's invariant holds
      all along: at any moment of it a crash finds what crash safety needs. */
  lemma {:induction false} TrailIsRun(cs: seq<B.Core>, s: Db) returns (dbs: seq<Db>, acts: seq<Option<Action>>)
    requires B.Trail(cs) && Represents(cs[0], s) && Inv(s)
    ensures Follows(cs, dbs, acts) && dbs[0] == s
    ensures forall i :: 0 <= i < |dbs| ==> Inv(dbs[i]) && dbs[i].log == s.log && dbs[i].pages == s.pages
    decreases |cs|
  {
    hide Inv;
    hide Does;
    hide Represents;
    hide B.Moved;
    if |cs| == 1 {
      dbs, acts := [s], [];
    } else {
      var n := |cs| - 1;
      var dbs', acts' := TrailIsRun(cs[..n], s);
      assert B.Moved(cs[n - 1], cs[n]);
      var s', a := MoveIsAction(cs[n - 1], cs[n], dbs'[n - 1]);
      if a.Some? {
        StepKeeps(dbs'[n - 1], s', a.value);
      }
      hide OwnStep;
      dbs, acts := dbs' + [s'], acts' + [a];
      forall i | 0 <= i < n ensures OwnStep(dbs[i], dbs[i + 1], acts[i]) {
        if i < n - 1 {
          assert OwnStep(dbs'[i], dbs'[i + 1], acts'[i]);
        }
      }
      forall i | 0 <= i <= n ensures Represents(cs[i], dbs[i]) {
        if i < n {
          assert Represents(cs[..n][i], dbs'[i]);
        }
      }
    }
  }

  /** A forced log is the engine's `FlushLog`. */
  lemma ForceIsAction(c: B.Core, s: Db) returns (s': Db)
    requires Represents(c, s)
    ensures Does(s, s', FlushLog) && Represents(c.(flushed := c.logged), s')
  {
    s' := s.(flushed := |s.log|);
  }

  lemma FreshStands(id: PageId)
    ensures Stands(B.FreshPage(id), EMPTY_PAGE)
  {
    P.FreshIsEmpty(id % 0x1_0000_0000);
    B.FreshPageLsn(id);
    hide P.PageLsn;
    hide B.FreshPage;
    hide P.Wf;
    hide P.Tuples;
    hide P.FreeSpace;
  }

  /** A page at the end of the file is the engine's `NewPage`. */
  lemma GrowthIsAction(c: B.Core, c': B.Core, s: Db) returns (s': Db)
    requires Represents(c, s) && B.Added(c, c') && s.phase.Running?
    ensures Does(s, s', NewPage) && Represents(c', s')
  {
    hide Stands;
    hide B.View;
    hide B.FreshPage;
    FreshStands(|c.disk|);
    s' := s.(pages := s.pages + [EMPTY_PAGE], disk := s.disk + [[EMPTY_PAGE]]);
  }

  /** A transaction's record followed by its write through a guard, with bytes that stand for the changed page, is the
      engine's change. */
  lemma ChangeIsAction(c: B.Core, c': B.Core, p: PageId, d: P.Image, s: Db, s': Db, a: Action)
    requires Represents(c, s) && ((a.InsertRow? && a.page == p) || (a.DeleteRow? && a.rid.page == p))
    requires Does(s, s', a) && Stands(d, s'.pages[p])
    requires B.View(c') == B.View(c)[p := d] && c'.disk == c.disk
    requires c'.logged == c.logged + 1 && c'.flushed == c.flushed
    ensures Represents(c', s')
  {
    hide Stands;
    hide B.View;
  }
}
