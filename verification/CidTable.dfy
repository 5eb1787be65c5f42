/**
  The table of content records, one row per (CID, peer) that was saved, and the
  transaction of a crawl job that brings it up to date and decides what to unpin.
 */
module CidTable {
  import opened Base

  /** `Save` of a record without an id always inserts, so equal rows can repeat. */
  datatype Row = Row(cid: Cid, peer: PeerId)

  type Rows = seq<Row>

  /** How many live rows peer `p` has for `c`. */
  function Count(rows: Rows, c: Cid, p: PeerId): nat {
    multiset(rows)[Row(c, p)]
  }

  function RowsOf(rows: Rows, p: PeerId): (r: Rows)
    ensures forall row :: row in r ==> row.peer == p
  {
    if rows == [] then [] else
      (if rows[0].peer == p then [rows[0]] else []) + RowsOf(rows[1..], p)
  }

  function RowsElsewhere(rows: Rows, c: Cid, p: PeerId): (r: Rows)
    ensures forall row :: row in r <==> row in rows && row.cid == c && row.peer != p
  {
    if rows == [] then [] else
      (if rows[0].cid == c && rows[0].peer != p then [rows[0]] else []) + RowsElsewhere(rows[1..], c, p)
  }

  function Without(rows: Rows, row: Row): Rows {
    if rows == [] then [] else
      (if rows[0] == row then [] else [rows[0]]) + Without(rows[1..], row)
  }

  lemma {:induction false} RowsOfCount(rows: Rows, c: Cid, p: PeerId)
    ensures Count(RowsOf(rows, p), c, p) == Count(rows, c, p)
  {
    if rows != [] {
      assert rows == [rows[0]] + rows[1..];
      RowsOfCount(rows[1..], c, p);
    }
  }

  lemma {:induction false} WithoutCount(rows: Rows, row: Row, c: Cid, p: PeerId)
    ensures Count(Without(rows, row), c, p) == if Row(c, p) == row then 0 else Count(rows, c, p)
  {
    if rows != [] {
      assert rows == [rows[0]] + rows[1..];
      WithoutCount(rows[1..], row, c, p);
    }
  }

  // ----- What the table says -----

  function Referenced(rows: Rows): set<Cid> {
    set row | row in rows :: row.cid
  }

  function Live(rows: Rows, p: PeerId): set<Cid> {
    set row | row in rows && row.peer == p :: row.cid
  }

  lemma LiveExact(rows: Rows, p: PeerId, c: Cid)
    ensures c in Live(rows, p) <==> Count(rows, c, p) > 0
  {
    if Row(c, p) in rows {
      assert Row(c, p).cid == c;
    }
  }

  lemma ReferencedExact(rows: Rows, c: Cid)
    ensures c in Referenced(rows) <==> exists p :: Count(rows, c, p) > 0
  {
    if c in Referenced(rows) {
      var row :| row in rows && row.cid == c;
      assert Count(rows, c, row.peer) > 0;
    }
    if p :| Count(rows, c, p) > 0 {
      assert Row(c, p).cid == c;
    }
  }

  ghost predicate HeldElsewhere(rows: Rows, c: Cid, p: PeerId) {
    exists q :: q != p && Count(rows, c, q) > 0
  }

  lemma HeldElsewhereExact(rows: Rows, c: Cid, p: PeerId)
    ensures HeldElsewhere(rows, c, p) <==> RowsElsewhere(rows, c, p) != []
  {
    var found := RowsElsewhere(rows, c, p);
    if found != [] {
      assert found[0] == Row(c, found[0].peer) && found[0] in found;
      assert Count(rows, c, found[0].peer) > 0;
    }
    if q :| q != p && Count(rows, c, q) > 0 {
      assert Row(c, q) in found;
    }
  }

  // ----- What a reconciliation promises -----

  ghost predicate OthersUntouched(before: Rows, after: Rows, p: PeerId) {
    forall c, q :: q != p ==> Count(after, c, q) == Count(before, c, q)
  }

  /** Row counts after peer `p` committed `graph`, when every statement succeeded. */
  ghost predicate Reconciled(before: Rows, after: Rows, p: PeerId, graph: seq<Cid>) {
    && OthersUntouched(before, after, p)
    && (forall c :: Count(after, c, p) == if c in graph then Count(before, c, p) + 1 else 0)
  }

  /** Some delete for a record of `c` among `done` succeeded. */
  predicate Deleted(done: Rows, deletes: nat -> bool, c: Cid) {
    exists i | 0 <= i < |done| :: done[i].cid == c && deletes(i)
  }

  /**
    Row counts after peer `p` committed `graph`, having loaded the records
    `oldCIDs`: what it drops is gone if a delete for it succeeded and untouched if not.
   */
  ghost predicate Merged(before: Rows, after: Rows, p: PeerId, graph: seq<Cid>, oldCIDs: Rows, deletes: nat -> bool) {
    && OthersUntouched(before, after, p)
    && (forall c :: Count(after, c, p) == if c in graph then Count(before, c, p) + 1
                                          else if Deleted(oldCIDs, deletes, c) then 0
                                          else Count(before, c, p))
  }

  /**
    The unpin list: each CID the peer held, dropped, and no other peer holds, as
    often as it had rows.
   */
  ghost predicate UnpinListed(before: Rows, p: PeerId, graph: seq<Cid>, toUnpin: seq<Cid>) {
    forall c :: multiset(toUnpin)[c] ==
                if c !in graph && !HeldElsewhere(before, c, p) then Count(before, c, p) else 0
  }

  /** A committed reconciliation unpins exactly what it was the last to reference. */
  lemma UnpinnedAtLastReference(before: Rows, after: Rows, p: PeerId, graph: seq<Cid>, toUnpin: seq<Cid>)
    requires Reconciled(before, after, p, graph) && UnpinListed(before, p, graph, toUnpin)
    ensures Elements(toUnpin) == Referenced(before) - Referenced(after)
  {
    forall c
      ensures c in toUnpin <==> c in Referenced(before) && c !in Referenced(after)
    {
      ReferencedExact(before, c);
      ReferencedExact(after, c);
      assert c in toUnpin <==> multiset(toUnpin)[c] > 0;
      if HeldElsewhere(before, c, p) {
        var q :| q != p && Count(before, c, q) > 0;
        assert Count(after, c, q) > 0;
      }
      assert c in graph ==> Count(after, c, p) > 0;
    }
  }

  /** A committed reconciliation leaves the peer holding exactly its new graph. */
  lemma LiveIsNewGraph(before: Rows, after: Rows, p: PeerId, graph: seq<Cid>, q: PeerId)
    requires Reconciled(before, after, p, graph)
    ensures Live(after, q) == if q == p then Elements(graph) else Live(before, q)
  {
    forall c
      ensures c in Live(after, q) <==> if q == p then c in graph else c in Live(before, q)
    {
      LiveExact(after, q, c);
      LiveExact(before, q, c);
    }
  }

  // ----- The two loops of the transaction -----

  /** Which statements of one transaction succeed: saves by graph position, the rest by old record. */
  datatype Faults = Faults(load: bool, saves: nat -> bool, deletes: nat -> bool, queries: nat -> bool, commit: bool)

  datatype Saving = Saving(ok: bool, tx: Rows, newCIDs: set<Cid>)

  /** One CID of the graph is saved unless it was before. */
  function SaveOne(s: Saving, p: PeerId, id: Cid, save: bool): Saving {
    if !s.ok || id in s.newCIDs then s
    else if !save then s.(ok := false)
    else Saving(true, s.tx + [Row(id, p)], s.newCIDs + {id})
  }

  /** The first `n` CIDs of the graph are saved. */
  function SaveFirst(before: Rows, p: PeerId, graph: seq<Cid>, db: Faults, n: nat): Saving
    requires n <= |graph|
  {
    if n == 0 then Saving(true, before, {})
    else SaveOne(SaveFirst(before, p, graph, db, n - 1), p, graph[n - 1], db.saves(n - 1))
  }

  datatype Dropping = Dropping(ok: bool, tx: Rows, toUnpin: seq<Cid>)

  /** An old record that does not carry forward is deleted, and its CID listed if nobody else holds it. */
  function DropOne(d: Dropping, p: PeerId, newCIDs: set<Cid>, rec: Row, delete: bool, query: bool): Dropping {
    if !d.ok || rec.cid in newCIDs then d else
      var tx := if delete then Without(d.tx, Row(rec.cid, p)) else d.tx;
      if !query then Dropping(false, tx, d.toUnpin)
      else if RowsElsewhere(tx, rec.cid, p) == [] then Dropping(true, tx, d.toUnpin + [rec.cid])
      else Dropping(true, tx, d.toUnpin)
  }

  /** The first `n` old records are dropped. */
  function DropFirst(saved: Rows, p: PeerId, newCIDs: set<Cid>, oldCIDs: Rows, db: Faults, n: nat): Dropping
    requires n <= |oldCIDs|
  {
    if n == 0 then Dropping(true, saved, [])
    else DropOne(DropFirst(saved, p, newCIDs, oldCIDs, db, n - 1), p, newCIDs, oldCIDs[n - 1],
                 db.deletes(n - 1), db.queries(n - 1))
  }

  /** After the inserts: one more row for each distinct new CID. */
  ghost predicate Saved(before: Rows, tx: Rows, p: PeerId, newCIDs: set<Cid>) {
    && OthersUntouched(before, tx, p)
    && (forall c :: Count(tx, c, p) == Count(before, c, p) + if c in newCIDs then 1 else 0)
  }

  /** After the deletes for the records `done`. */
  ghost predicate Diffed(before: Rows, tx: Rows, p: PeerId, newCIDs: set<Cid>, done: Rows, deletes: nat -> bool) {
    && OthersUntouched(before, tx, p)
    && (forall c :: Count(tx, c, p) == if c in newCIDs then Count(before, c, p) + 1
                                       else if Deleted(done, deletes, c) then 0
                                       else Count(before, c, p))
  }

  /** The unpin list after the records `done`. */
  ghost predicate Listed(before: Rows, p: PeerId, newCIDs: set<Cid>, done: Rows, toUnpin: seq<Cid>) {
    forall c :: multiset(toUnpin)[c] ==
                if c !in newCIDs && !HeldElsewhere(before, c, p) then Count(done, c, p) else 0
  }

  /** Unless it failed, the save loop has come from `before` to `s` by the CIDs `done`. */
  ghost predicate SavedSoFar(before: Rows, s: Saving, p: PeerId, done: seq<Cid>) {
    s.ok ==> s.newCIDs == Elements(done) && Saved(before, s.tx, p, s.newCIDs)
  }

  lemma SaveStep(before: Rows, s: Saving, p: PeerId, done: seq<Cid>, id: Cid, save: bool)
    requires SavedSoFar(before, s, p, done)
    ensures SavedSoFar(before, SaveOne(s, p, id, save), p, done + [id])
  {
    assert Elements(done + [id]) == Elements(done) + {id};
    if s.ok && id in s.newCIDs {
      assert Elements(done + [id]) == Elements(done);
    }
  }

  lemma {:induction false} SaveFirstEffect(before: Rows, p: PeerId, graph: seq<Cid>, db: Faults, n: nat)
    requires n <= |graph|
    ensures SavedSoFar(before, SaveFirst(before, p, graph, db, n), p, graph[..n])
  {
    if n > 0 {
      SaveFirstEffect(before, p, graph, db, n - 1);
      TakeNext(graph, n - 1);
      SaveStep(before, SaveFirst(before, p, graph, db, n - 1), p, graph[..n - 1], graph[n - 1], db.saves(n - 1));
    }
  }

  /** The CID at `i` does not stand earlier in the graph, so it is saved there. */
  predicate SavedAt(graph: seq<Cid>, i: nat)
    requires i < |graph|
  {
    forall j | 0 <= j < i :: graph[j] != graph[i]
  }

  /** Every save that is made of the first `n` CIDs succeeds. */
  predicate SavesSucceed(graph: seq<Cid>, db: Faults, n: nat)
    requires n <= |graph|
  {
    forall i | 0 <= i < n && SavedAt(graph, i) :: db.saves(i)
  }

  lemma SavedAtExact(graph: seq<Cid>, i: nat)
    requires i < |graph|
    ensures SavedAt(graph, i) <==> graph[i] !in Elements(graph[..i])
  {
    if graph[i] in graph[..i] {
      var j :| 0 <= j < i && graph[..i][j] == graph[i];
      assert graph[j] == graph[i];
    }
  }

  /** The save loop fails if and only if a save that it makes fails. */
  lemma {:induction false} SaveFirstEnds(before: Rows, p: PeerId, graph: seq<Cid>, db: Faults, n: nat)
    requires n <= |graph|
    ensures SaveFirst(before, p, graph, db, n).ok <==> SavesSucceed(graph, db, n)
  {
    if n > 0 {
      SaveFirstEnds(before, p, graph, db, n - 1);
      SaveFirstEffect(before, p, graph, db, n - 1);
      SavedAtExact(graph, n - 1);
    }
  }

  lemma DeletedNext(done: Rows, rec: Row, deletes: nat -> bool, c: Cid)
    ensures Deleted(done + [rec], deletes, c) <==> Deleted(done, deletes, c) || (rec.cid == c && deletes(|done|))
  {
    var all := done + [rec];
    if Deleted(done, deletes, c) {
      var i :| 0 <= i < |done| && done[i].cid == c && deletes(i);
      assert all[i].cid == c;
    }
    if rec.cid == c && deletes(|done|) {
      assert all[|done|].cid == c;
    }
  }

  lemma DiffStep(before: Rows, tx: Rows, p: PeerId, newCIDs: set<Cid>, done: Rows, rec: Row, deletes: nat -> bool)
    requires Diffed(before, tx, p, newCIDs, done, deletes) && rec.peer == p
    ensures Diffed(before, if rec.cid !in newCIDs && deletes(|done|) then Without(tx, rec) else tx,
                   p, newCIDs, done + [rec], deletes)
  {
    forall c, q
      ensures Count(Without(tx, rec), c, q) == if Row(c, q) == rec then 0 else Count(tx, c, q)
    {
      WithoutCount(tx, rec, c, q);
    }
    forall c
      ensures Deleted(done + [rec], deletes, c) <==> Deleted(done, deletes, c) || (rec.cid == c && deletes(|done|))
    {
      DeletedNext(done, rec, deletes, c);
    }
  }

  lemma ListStep(before: Rows, p: PeerId, newCIDs: set<Cid>, done: Rows, rec: Row, toUnpin: seq<Cid>)
    requires Listed(before, p, newCIDs, done, toUnpin) && rec.peer == p
    ensures Listed(before, p, newCIDs, done + [rec],
                   if rec.cid !in newCIDs && !HeldElsewhere(before, rec.cid, p) then toUnpin + [rec.cid] else toUnpin)
  {
    forall c
      ensures Count(done + [rec], c, p) == Count(done, c, p) + if c == rec.cid then 1 else 0
    {
    }
  }

  /** The query for other holders sees them as they were before the transaction. */
  lemma SameHoldersElsewhere(before: Rows, tx: Rows, c: Cid, p: PeerId)
    requires OthersUntouched(before, tx, p)
    ensures RowsElsewhere(tx, c, p) == [] <==> !HeldElsewhere(before, c, p)
  {
    HeldElsewhereExact(tx, c, p);
  }

  /** Unless it failed, the drop loop has come from `before` to `d` by the records `done`. */
  ghost predicate DroppedSoFar(before: Rows, d: Dropping, p: PeerId, newCIDs: set<Cid>, done: Rows,
                               deletes: nat -> bool) {
    d.ok ==> Diffed(before, d.tx, p, newCIDs, done, deletes) && Listed(before, p, newCIDs, done, d.toUnpin)
  }

  lemma DropStep(before: Rows, d: Dropping, p: PeerId, newCIDs: set<Cid>, done: Rows, rec: Row, db: Faults)
    requires DroppedSoFar(before, d, p, newCIDs, done, db.deletes) && rec.peer == p
    ensures DroppedSoFar(before, DropOne(d, p, newCIDs, rec, db.deletes(|done|), db.queries(|done|)),
                         p, newCIDs, done + [rec], db.deletes)
  {
    if d.ok {
      var tx := if rec.cid !in newCIDs && db.deletes(|done|) then Without(d.tx, rec) else d.tx;
      assert rec == Row(rec.cid, p);
      DiffStep(before, d.tx, p, newCIDs, done, rec, db.deletes);
      ListStep(before, p, newCIDs, done, rec, d.toUnpin);
      SameHoldersElsewhere(before, tx, rec.cid, p);
    }
  }

  lemma DropStart(before: Rows, saved: Rows, p: PeerId, newCIDs: set<Cid>, deletes: nat -> bool)
    requires Saved(before, saved, p, newCIDs)
    ensures DroppedSoFar(before, Dropping(true, saved, []), p, newCIDs, [], deletes)
  {
  }

  lemma {:induction false} DropFirstEffect(before: Rows, saved: Rows, p: PeerId, newCIDs: set<Cid>, oldCIDs: Rows,
                                           db: Faults, n: nat)
    requires Saved(before, saved, p, newCIDs) && n <= |oldCIDs| && forall rec :: rec in oldCIDs ==> rec.peer == p
    ensures DroppedSoFar(before, DropFirst(saved, p, newCIDs, oldCIDs, db, n), p, newCIDs, oldCIDs[..n], db.deletes)
  {
    if n == 0 {
      DropStart(before, saved, p, newCIDs, db.deletes);
      assert oldCIDs[..0] == [];
    } else {
      DropFirstEffect(before, saved, p, newCIDs, oldCIDs, db, n - 1);
      DropStep(before, DropFirst(saved, p, newCIDs, oldCIDs, db, n - 1), p, newCIDs,
               oldCIDs[..n - 1], oldCIDs[n - 1], db);
      TakeNext(oldCIDs, n - 1);
    }
  }

  /** Every query that is made for the first `n` records, one for each that does not carry forward, succeeds. */
  predicate QueriesSucceed(newCIDs: set<Cid>, oldCIDs: Rows, db: Faults, n: nat)
    requires n <= |oldCIDs|
  {
    forall i | 0 <= i < n && oldCIDs[i].cid !in newCIDs :: db.queries(i)
  }

  /** The drop loop fails if and only if a query that it makes fails. */
  lemma {:induction false} DropFirstEnds(saved: Rows, p: PeerId, newCIDs: set<Cid>, oldCIDs: Rows, db: Faults, n: nat)
    requires n <= |oldCIDs|
    ensures DropFirst(saved, p, newCIDs, oldCIDs, db, n).ok <==> QueriesSucceed(newCIDs, oldCIDs, db, n)
  {
    if n > 0 {
      DropFirstEnds(saved, p, newCIDs, oldCIDs, db, n - 1);
    }
  }

  // ----- The transaction -----

  /** The records a transaction starts from; a failed load is taken for an empty answer. */
  function Loaded(before: Rows, p: PeerId, db: Faults): Rows {
    if db.load then RowsOf(before, p) else []
  }

  /** Every save and every query that the transaction makes succeeds, and so does the commit. */
  predicate Succeeds(before: Rows, p: PeerId, graph: seq<Cid>, db: Faults) {
    && SavesSucceed(graph, db, |graph|)
    && QueriesSucceed(Elements(graph), Loaded(before, p, db), db, |Loaded(before, p, db)|)
    && db.commit
  }

  /**
    What one transaction does.  It commits exactly when the saves and queries that it
    makes and the commit succeed, and otherwise leaves the table; failed loads and
    deletes do not stop it.  When it commits, the rows are merged, and the unpin list
    is exact, or empty after a failed load.
   */
  ghost predicate TransactionEffect(before: Rows, after: Rows, p: PeerId, graph: seq<Cid>, db: Faults, ok: bool,
                                    toUnpin: seq<Cid>) {
    && (ok <==> Succeeds(before, p, graph, db))
    && (!ok ==> after == before)
    && (ok ==> Merged(before, after, p, graph, Loaded(before, p, db), db.deletes))
    && (ok && db.load ==> UnpinListed(before, p, graph, toUnpin))
    && (ok && !db.load ==> toUnpin == [])
  }

  lemma MergedFromLoops(before: Rows, tx: Rows, p: PeerId, graph: seq<Cid>, db: Faults, toUnpin: seq<Cid>)
    requires Diffed(before, tx, p, Elements(graph), Loaded(before, p, db), db.deletes)
    requires Listed(before, p, Elements(graph), Loaded(before, p, db), toUnpin)
    ensures Merged(before, tx, p, graph, Loaded(before, p, db), db.deletes)
    ensures if db.load then UnpinListed(before, p, graph, toUnpin) else toUnpin == []
  {
    if db.load {
      forall c
        ensures Count(RowsOf(before, p), c, p) == Count(before, c, p)
      {
        RowsOfCount(before, c, p);
      }
    } else {
      assert forall c :: multiset(toUnpin)[c] == 0;
      assert |multiset(toUnpin)| == |toUnpin|;
      assert multiset(toUnpin) == multiset{};
    }
  }

  /** Whatever failed, the committed graph is live, and nothing is live that was not or is not in it. */
  lemma MergedLive(before: Rows, after: Rows, p: PeerId, graph: seq<Cid>, oldCIDs: Rows, deletes: nat -> bool,
                   q: PeerId)
    requires Merged(before, after, p, graph, oldCIDs, deletes)
    ensures Elements(graph) <= Live(after, p) <= Elements(graph) + Live(before, p)
    ensures q != p ==> Live(after, q) == Live(before, q)
  {
    forall c
      ensures c in graph ==> c in Live(after, p)
      ensures c in Live(after, p) ==> c in graph || c in Live(before, p)
      ensures q != p ==> (c in Live(after, q) <==> c in Live(before, q))
    {
      LiveExact(after, p, c);
      LiveExact(before, p, c);
      LiveExact(after, q, c);
      LiveExact(before, q, c);
    }
  }

  /** With the load and all deletes the reconciliation is exact. */
  lemma MergedIsReconciled(before: Rows, after: Rows, p: PeerId, graph: seq<Cid>, deletes: nat -> bool)
    requires Merged(before, after, p, graph, RowsOf(before, p), deletes) && forall n :: deletes(n)
    ensures Reconciled(before, after, p, graph)
  {
    var oldCIDs := RowsOf(before, p);
    forall c
      ensures Deleted(oldCIDs, deletes, c) || Count(before, c, p) == 0
    {
      RowsOfCount(before, c, p);
      if Count(before, c, p) > 0 {
        var i :| 0 <= i < |oldCIDs| && oldCIDs[i] == Row(c, p);
        assert oldCIDs[i].cid == c && deletes(i);
      }
    }
  }

  /**
    A dropped CID whose deletes failed is put on the unpin list although its row
    stays: a listed CID is still referenced if and only if no delete for it succeeded.
   */
  lemma ListedButReferenced(before: Rows, after: Rows, p: PeerId, graph: seq<Cid>, db: Faults, toUnpin: seq<Cid>,
                            c: Cid)
    requires TransactionEffect(before, after, p, graph, db, true, toUnpin) && c in toUnpin
    ensures c in Referenced(after) <==> !Deleted(RowsOf(before, p), db.deletes, c)
  {
    assert multiset(toUnpin)[c] > 0;
    ReferencedExact(after, c);
    assert forall q :: q != p ==> Count(after, c, q) == Count(before, c, q) == 0;
  }

  /** A reachable case: every delete fails, and `c` is listed although its row stays. */
  lemma FailedDeleteIsListed(p: PeerId, c: Cid, d: Cid)
    requires c != d
    ensures var db := Faults(true, n => true, n => false, n => true, true);
            && TransactionEffect([Row(c, p)], [Row(c, p), Row(d, p)], p, [d], db, true, [c])
            && c in Referenced([Row(c, p), Row(d, p)])
  {
    var db := Faults(true, n => true, n => false, n => true, true);
    var before, after := [Row(c, p)], [Row(c, p), Row(d, p)];
    assert RowsOf(before, p) == [Row(c, p)];
    assert forall x, q :: Count(before, x, q) == if x == c && q == p then 1 else 0;
    assert forall x, q :: Count(after, x, q) == if (x == c || x == d) && q == p then 1 else 0;
    assert Row(c, p).cid == c && Row(c, p) in after;
  }

  /** Saves each distinct CID of the graph once; the first failed save stops it. */
  method SaveNew(before: Rows, p: PeerId, graph: seq<Cid>, db: Faults) returns (ok: bool, tx: Rows, newCIDs: set<Cid>)
    ensures Saving(ok, tx, newCIDs) == SaveFirst(before, p, graph, db, |graph|)
    ensures ok ==> newCIDs == Elements(graph) && Saved(before, tx, p, newCIDs)
    ensures ok <==> SavesSucceed(graph, db, |graph|)
  {
    ok, tx, newCIDs := true, before, {};
    for i := 0 to |graph|
      invariant ok && Saving(ok, tx, newCIDs) == SaveFirst(before, p, graph, db, i)
    {
      var id := graph[i];
      if id !in newCIDs {
        if !db.saves(i) {
          ok := false;
          StaysFailed(before, p, graph, db, i + 1);
          break;
        }
        tx := tx + [Row(id, p)];
        newCIDs := newCIDs + {id};
      }
    }
    SaveFirstEffect(before, p, graph, db, |graph|);
    SaveFirstEnds(before, p, graph, db, |graph|);
    TakeAll(graph);
  }

  lemma {:induction false} StaysFailed(before: Rows, p: PeerId, graph: seq<Cid>, db: Faults, i: nat)
    requires i <= |graph| && !SaveFirst(before, p, graph, db, i).ok
    ensures SaveFirst(before, p, graph, db, |graph|) == SaveFirst(before, p, graph, db, i)
    decreases |graph| - i
  {
    if i < |graph| {
      StaysFailed(before, p, graph, db, i + 1);
    }
  }

  /** Deletes the old records that do not carry forward and lists what nobody else holds. */
  method DropOld(ghost before: Rows, saved: Rows, p: PeerId, newCIDs: set<Cid>, oldCIDs: Rows, db: Faults)
    returns (ok: bool, tx: Rows, toUnpin: seq<Cid>)
    requires Saved(before, saved, p, newCIDs) && forall rec :: rec in oldCIDs ==> rec.peer == p
    ensures Dropping(ok, tx, toUnpin) == DropFirst(saved, p, newCIDs, oldCIDs, db, |oldCIDs|)
    ensures ok ==> Diffed(before, tx, p, newCIDs, oldCIDs, db.deletes)
    ensures ok ==> Listed(before, p, newCIDs, oldCIDs, toUnpin)
    ensures ok <==> QueriesSucceed(newCIDs, oldCIDs, db, |oldCIDs|)
  {
    ok, tx, toUnpin := true, saved, [];
    for i := 0 to |oldCIDs|
      invariant ok && Dropping(ok, tx, toUnpin) == DropFirst(saved, p, newCIDs, oldCIDs, db, i)
    {
      ok, tx, toUnpin := DropRecord(tx, p, newCIDs, oldCIDs[i], db.deletes(i), db.queries(i), toUnpin);
      if !ok {
        DropStaysFailed(saved, p, newCIDs, oldCIDs, db, i + 1);
        break;
      }
    }
    DropFirstEffect(before, saved, p, newCIDs, oldCIDs, db, |oldCIDs|);
    TakeAll(oldCIDs);
    DropFirstEnds(saved, p, newCIDs, oldCIDs, db, |oldCIDs|);
  }

  method DropRecord(tx0: Rows, p: PeerId, newCIDs: set<Cid>, rec: Row, delete: bool, query: bool, toUnpin0: seq<Cid>)
    returns (ok: bool, tx: Rows, toUnpin: seq<Cid>)
    ensures Dropping(ok, tx, toUnpin) == DropOne(Dropping(true, tx0, toUnpin0), p, newCIDs, rec, delete, query)
  {
    ok, tx, toUnpin := true, tx0, toUnpin0;
    if rec.cid !in newCIDs {
      if delete {
        tx := Without(tx, Row(rec.cid, p));
      }
      if !query {
        return false, tx, toUnpin;
      }
      var recs := RowsElsewhere(tx, rec.cid, p);
      if |recs| == 0 {
        toUnpin := toUnpin + [rec.cid];
      }
    }
  }

  lemma {:induction false} DropStaysFailed(saved: Rows, p: PeerId, newCIDs: set<Cid>, oldCIDs: Rows, db: Faults, i: nat)
    requires i <= |oldCIDs| && !DropFirst(saved, p, newCIDs, oldCIDs, db, i).ok
    ensures DropFirst(saved, p, newCIDs, oldCIDs, db, |oldCIDs|) == DropFirst(saved, p, newCIDs, oldCIDs, db, i)
    decreases |oldCIDs| - i
  {
    if i < |oldCIDs| {
      DropStaysFailed(saved, p, newCIDs, oldCIDs, db, i + 1);
    }
  }

  class Database {
    var rows: Rows

    constructor ()
      ensures rows == []
    {
      rows := [];
    }

    /**
      The database half of a crawl job.  A failed save, a failed query for other
      holders, or a failed commit rolls back.  A failed load is taken for an empty
      answer, and a failed delete only leaves its row behind.
     */
    method Reconcile(p: PeerId, graph: seq<Cid>, db: Faults) returns (ok: bool, toUnpin: seq<Cid>)
      modifies this`rows
      ensures TransactionEffect(old(rows), rows, p, graph, db, ok, toUnpin)
    {
      toUnpin := [];
      var oldCIDs := if db.load then RowsOf(rows, p) else [];
      var tx, newCIDs;
      ok, tx, newCIDs := SaveNew(rows, p, graph, db);
      if !ok {
        return;
      }
      ok, tx, toUnpin := DropOld(rows, tx, p, newCIDs, oldCIDs, db);
      if !ok || !db.commit {
        return false, toUnpin;
      }
      MergedFromLoops(rows, tx, p, graph, db, toUnpin);
      rows := tx;
    }

    /**
      What a ban and the hourly loop unpin: every CID of the peer, once per row,
      whoever else holds it.  The rows stay.
     */
    method UnpinPeer(p: PeerId) returns (unpinned: seq<Cid>)
      ensures Elements(unpinned) == Live(rows, p)
      ensures forall c :: multiset(unpinned)[c] == Count(rows, c, p)
    {
      unpinned := [];
      var cidsRecs := RowsOf(rows, p);
      for i := 0 to |cidsRecs|
        invariant forall c :: multiset(unpinned)[c] == Count(cidsRecs[..i], c, p)
      {
        TakeNext(cidsRecs, i);
        unpinned := unpinned + [cidsRecs[i].cid];
      }
      TakeAll(cidsRecs);
      forall c
        ensures multiset(unpinned)[c] == Count(rows, c, p)
        ensures c in unpinned <==> c in Live(rows, p)
      {
        RowsOfCount(rows, c, p);
        LiveExact(rows, p, c);
        assert c in unpinned <==> multiset(unpinned)[c] > 0;
      }
    }
  }
}
