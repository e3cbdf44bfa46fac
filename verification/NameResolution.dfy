/** What a column name refers to, by the places of the relations in the FROM clauses in scope. */
module NameResolution {
  import opened Common
  import opened Ast
  import opened Values
  import opened Aggregation

  /** Column `i` is the first of the relation with this name, and `c` refers to it. */
  ghost predicate Refers(sc: Scope, e: ScopeEntry, i: nat, name: string, c: ColumnRef)
    requires e.rte < |sc.relations|
  {
    var rel := sc.relations[e.rte];
    && i < |rel.columns| && rel.columns[i].name == name && (forall j :: 0 <= j < i ==> rel.columns[j].name != name)
    && c == ColumnRef(e.rte, rel.offset + i, name, rel.columns[i].ty)
  }

  ghost predicate Names(sc: Scope, e: ScopeEntry, name: string, c: ColumnRef)
    requires e.rte < |sc.relations|
  {
    exists i: nat :: Refers(sc, e, i, name, c)
  }

  ghost predicate HasColumn(sc: Scope, e: ScopeEntry, name: string)
    requires e.rte < |sc.relations|
  {
    exists i :: 0 <= i < |sc.relations[e.rte].columns| && sc.relations[e.rte].columns[i].name == name
  }

  /** Place `p` is entry `p.1` of the scope with number `p.0`; the innermost scope has the largest number. */
  type Place = (nat, nat)

  predicate At(scopes: seq<seq<ScopeEntry>>, p: Place) { p.0 < |scopes| && p.1 < |scopes[p.0]| }

  /** Scopes further in come first, and in a scope the relations in the order of FROM. */
  predicate Nearer(p: Place, r: Place) { p.0 > r.0 || (p.0 == r.0 && p.1 < r.1) }

  // ---- a column of a relation ----

  lemma {:induction false} FoundFirst(cols: seq<OutputColumn>, name: string, i: nat)
    ensures FindColumn(cols, name) == Some(i) <==>
      i < |cols| && cols[i].name == name && forall j :: 0 <= j < i ==> cols[j].name != name
    decreases |cols|
  {
    if cols != [] && cols[0].name != name && i > 0 {
      FoundFirst(cols[1..], name, i - 1);
      assert forall j :: 0 < j < |cols| ==> cols[j] == cols[1..][j - 1];
    }
  }

  lemma HitExactly(sc: Scope, e: ScopeEntry, name: string, c: ColumnRef)
    requires e.rte < |sc.relations|
    ensures HitIn(sc, e, name) == Some(c) <==> Names(sc, e, name, c)
    ensures HitIn(sc, e, name) == None <==> !HasColumn(sc, e, name)
  {
    var cols := sc.relations[e.rte].columns;
    if i: nat :| Refers(sc, e, i, name, c) {
      FoundFirst(cols, name, i);
    }
    match FindColumn(cols, name)
    case None =>
    case Some(i) =>
      FoundFirst(cols, name, i);
      assert HitIn(sc, e, name) == Some(c) ==> Refers(sc, e, i, name, c);
  }

  // ---- the order in which entries are searched ----

  /** The number of a place in the order of the search. */
  function Index(scopes: seq<seq<ScopeEntry>>, p: Place): (k: nat)
    requires At(scopes, p)
    ensures k < |Entries(scopes)| && Entries(scopes)[k] == scopes[p.0][p.1]
    decreases |scopes|
  {
    var n := |scopes| - 1;
    if p.0 == n then p.1 else |scopes[n]| + Index(scopes[..n], p)
  }

  function PlaceOf(scopes: seq<seq<ScopeEntry>>, k: nat): (p: Place)
    requires k < |Entries(scopes)|
    ensures At(scopes, p) && Index(scopes, p) == k
    decreases |scopes|
  {
    var n := |scopes| - 1;
    if k < |scopes[n]| then (n, k) else PlaceOf(scopes[..n], k - |scopes[n]|)
  }

  lemma {:induction false} SearchOrder(scopes: seq<seq<ScopeEntry>>, p: Place, r: Place)
    requires At(scopes, p) && At(scopes, r)
    ensures Nearer(p, r) <==> Index(scopes, p) < Index(scopes, r)
    ensures p == r <==> Index(scopes, p) == Index(scopes, r)
    decreases |scopes|
  {
    var n := |scopes| - 1;
    if p.0 < n && r.0 < n {
      SearchOrder(scopes[..n], p, r);
    }
  }

  // ---- qualified names ----

  ghost predicate FirstCalled(entries: seq<ScopeEntry>, q: string, k: nat) {
    k < |entries| && entries[k].visible == q && forall j :: 0 <= j < k ==> entries[j].visible != q
  }

  lemma {:induction false} QualifiedIs(sc: Scope, entries: seq<ScopeEntry>, q: string, name: string, c: ColumnRef)
    requires EntriesIn(sc, entries)
    ensures ResolveQualified(sc, entries, q, name) == Ok(c) <==>
      exists k: nat :: FirstCalled(entries, q, k) && HitIn(sc, entries[k], name) == Some(c)
    decreases |entries|
  {
    if entries != [] {
      var rest := entries[1..];
      assert forall j :: 0 < j < |entries| ==> entries[j] == rest[j - 1];
      if entries[0].visible == q {
        assert FirstCalled(entries, q, 0);
      } else {
        QualifiedIs(sc, rest, q, name, c);
        forall k: nat | FirstCalled(rest, q, k) ensures FirstCalled(entries, q, k + 1) {
        }
        forall k: nat | FirstCalled(entries, q, k) ensures k > 0 && FirstCalled(rest, q, k - 1) {
          assert forall j :: 0 <= j < |rest| ==> rest[j] == entries[j + 1];
        }
      }
    }
  }

  /** The relation at this place is the nearest one that goes by the name `q`. */
  ghost predicate NearestCalled(scopes: seq<seq<ScopeEntry>>, q: string, p: Place) {
    && At(scopes, p) && scopes[p.0][p.1].visible == q
    && forall r: Place :: At(scopes, r) && Nearer(r, p) ==> scopes[r.0][r.1].visible != q
  }

  /** `q.name` refers to the first column `name` of the nearest relation that goes by `q`, when it has one; other
      relations of that name further out do not count. */
  lemma QualifiedExactly(sc: Scope, q: string, name: string, c: ColumnRef)
    requires ScopeOk(sc)
    ensures Resolve(sc, Some(q), name) == Ok(c) <==>
      exists p: Place :: NearestCalled(sc.scopes, q, p) && Names(sc, sc.scopes[p.0][p.1], name, c)
  {
    EntriesOk(sc, sc.scopes);
    var entries := Entries(sc.scopes);
    QualifiedIs(sc, entries, q, name, c);
    forall k: nat | FirstCalled(entries, q, k)
      ensures NearestCalled(sc.scopes, q, PlaceOf(sc.scopes, k))
    {
      var p := PlaceOf(sc.scopes, k);
      forall r: Place | At(sc.scopes, r) && Nearer(r, p) ensures sc.scopes[r.0][r.1].visible != q {
        SearchOrder(sc.scopes, r, p);
      }
    }
    forall p: Place | NearestCalled(sc.scopes, q, p) ensures FirstCalled(entries, q, Index(sc.scopes, p)) {
      forall j | 0 <= j < Index(sc.scopes, p) ensures entries[j].visible != q {
        SearchOrder(sc.scopes, PlaceOf(sc.scopes, j), p);
      }
    }
    forall e | e in entries ensures HitIn(sc, e, name) == Some(c) <==> Names(sc, e, name, c) {
      HitExactly(sc, e, name, c);
    }
  }

  // ---- bare names ----

  /** The relation at this place has the column, and no other in any scope has one of that name. */
  ghost predicate OnlyPlace(sc: Scope, name: string, p: Place, c: ColumnRef)
    requires ScopeOk(sc)
  {
    && At(sc.scopes, p) && Names(sc, sc.scopes[p.0][p.1], name, c)
    && forall r: Place :: At(sc.scopes, r) && r != p ==> !HasColumn(sc, sc.scopes[r.0][r.1], name)
  }

  /** A bare name refers to the one relation that has such a column, in whatever scope, and to nothing when there are
      two, even when one of them is nearer. */
  lemma BareExactly(sc: Scope, name: string, c: ColumnRef)
    requires ScopeOk(sc)
    ensures Resolve(sc, None, name) == Ok(c) <==> exists p: Place :: OnlyPlace(sc, name, p, c)
  {
    EntriesOk(sc, sc.scopes);
    var entries := Entries(sc.scopes);
    SearchFindsTheOnlyHit(sc, entries, name, c);
    forall e | e in entries
      ensures HitIn(sc, e, name) == Some(c) <==> Names(sc, e, name, c)
      ensures HitIn(sc, e, name) == None <==> !HasColumn(sc, e, name)
    {
      HitExactly(sc, e, name, c);
    }
    forall k | OnlyAt(sc, entries, name, k, c) ensures OnlyPlace(sc, name, PlaceOf(sc.scopes, k), c) {
      forall r: Place | At(sc.scopes, r) && r != PlaceOf(sc.scopes, k)
        ensures !HasColumn(sc, sc.scopes[r.0][r.1], name)
      {
        SearchOrder(sc.scopes, r, PlaceOf(sc.scopes, k));
        assert entries[Index(sc.scopes, r)] == sc.scopes[r.0][r.1];
      }
    }
    forall p: Place | OnlyPlace(sc, name, p, c) ensures OnlyAt(sc, entries, name, Index(sc.scopes, p), c) {
      forall j | 0 <= j < |entries| && j != Index(sc.scopes, p) ensures HitIn(sc, entries[j], name) == None {
        var r := PlaceOf(sc.scopes, j);
        assert r != p && entries[j] == sc.scopes[r.0][r.1];
      }
    }
  }
}
