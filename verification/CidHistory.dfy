/**
  Every run of reconciliations: any peers, any graphs, any serial order of commits
  (the transaction lock gives one), with failed attempts in between.
 */
module CidHistory {
  import opened Base
  import opened CidTable

  datatype Attempt = Attempt(peer: PeerId, graph: seq<Cid>, committed: bool, toUnpin: seq<Cid>)

  /** What `Database.Reconcile` ensures of one attempt when loads and deletes succeed. */
  ghost predicate Outcome(before: Rows, after: Rows, a: Attempt) {
    if a.committed then
      Reconciled(before, after, a.peer, a.graph) && UnpinListed(before, a.peer, a.graph, a.toUnpin)
    else
      after == before
  }

  /** `tables[i]` is the table before attempt `i`, from an empty table. */
  ghost predicate IsHistory(tables: seq<Rows>, jobs: seq<Attempt>) {
    && |tables| == |jobs| + 1
    && tables[0] == []
    && forall i | 0 <= i < |jobs| :: Outcome(tables[i], tables[i + 1], jobs[i])
  }

  /** The graph of the last committed job of `p`, or nothing. */
  function LastGraph(jobs: seq<Attempt>, p: PeerId): set<Cid> {
    if jobs == [] then {} else
      var last := jobs[|jobs| - 1];
      if last.committed && last.peer == p then Elements(last.graph) else LastGraph(jobs[..|jobs| - 1], p)
  }

  /** A peer's live CIDs are exactly the graph of its last committed job. */
  lemma {:induction false} LiveIsLastGraph(tables: seq<Rows>, jobs: seq<Attempt>, n: nat, p: PeerId)
    requires IsHistory(tables, jobs) && n <= |jobs|
    ensures Live(tables[n], p) == LastGraph(jobs[..n], p)
  {
    if n > 0 {
      LiveIsLastGraph(tables, jobs, n - 1, p);
      var a := jobs[n - 1];
      assert Outcome(tables[n - 1], tables[n - 1 + 1], a);
      assert jobs[..n][..n - 1] == jobs[..n - 1];
      if a.committed {
        LiveIsNewGraph(tables[n - 1], tables[n], a.peer, a.graph, p);
      }
    }
  }

  /** Attempt `i` committed with `c` on its unpin list. */
  predicate UnpinsAt(jobs: seq<Attempt>, i: nat, c: Cid)
    requires i < |jobs|
  {
    jobs[i].committed && c in jobs[i].toUnpin
  }

  /** An attempt unpins a CID exactly when it takes the last reference away. */
  lemma UnpinsAtLastReference(tables: seq<Rows>, jobs: seq<Attempt>, i: nat, c: Cid)
    requires IsHistory(tables, jobs) && i < |jobs|
    ensures UnpinsAt(jobs, i, c) <==> c in Referenced(tables[i]) && c !in Referenced(tables[i + 1])
  {
    var a := jobs[i];
    assert Outcome(tables[i], tables[i + 1], a);
    if a.committed {
      UnpinnedAtLastReference(tables[i], tables[i + 1], a.peer, a.graph, a.toUnpin);
      assert c in Elements(a.toUnpin) <==> c in a.toUnpin;
    }
  }

  ghost predicate UnpinnedSince(tables: seq<Rows>, jobs: seq<Attempt>, i: nat, n: nat, c: Cid)
    requires |tables| == |jobs| + 1 && i <= n <= |jobs|
  {
    exists j | i <= j < n :: UnpinsAt(jobs, j, c) && forall k | j < k <= n :: c !in Referenced(tables[k])
  }

  /**
    Nothing leaks: a CID that a committed job recorded is either still referenced,
    or some later attempt unpinned it and nothing has referenced it since.
   */
  lemma {:induction false} NothingLeaks(tables: seq<Rows>, jobs: seq<Attempt>, i: nat, n: nat, c: Cid)
    requires IsHistory(tables, jobs) && i < n <= |jobs|
    requires jobs[i].committed && c in jobs[i].graph
    ensures c in Referenced(tables[n]) || UnpinnedSince(tables, jobs, i, n, c)
    decreases n
  {
    var a := jobs[n - 1];
    assert Outcome(tables[n - 1], tables[n - 1 + 1], a);
    if n == i + 1 {
      assert Count(tables[n], c, a.peer) > 0;
      ReferencedExact(tables[n], c);
    } else if c !in Referenced(tables[n]) {
      NothingLeaks(tables, jobs, i, n - 1, c);
      UnpinsAtLastReference(tables, jobs, n - 1, c);
      if c in Referenced(tables[n - 1]) {
        assert UnpinsAt(jobs, n - 1, c);
      } else {
        var j :| i <= j < n - 1 && UnpinsAt(jobs, j, c) && forall k | j < k <= n - 1 :: c !in Referenced(tables[k]);
        assert forall k | j < k <= n :: c !in Referenced(tables[k]);
      }
    }
  }

  /** How often among the first `n` attempts `c` went from unreferenced to referenced. */
  function Arrivals(tables: seq<Rows>, n: nat, c: Cid): nat
    requires n < |tables|
  {
    if n == 0 then 0 else
      Arrivals(tables, n - 1, c) +
      if c !in Referenced(tables[n - 1]) && c in Referenced(tables[n]) then 1 else 0
  }

  /** How often among the first `n` attempts `c` was unpinned. */
  function Unpins(jobs: seq<Attempt>, n: nat, c: Cid): nat
    requires n <= |jobs|
  {
    if n == 0 then 0 else Unpins(jobs, n - 1, c) + if UnpinsAt(jobs, n - 1, c) then 1 else 0
  }

  /**
    Conservation, although no reference count is stored anywhere: every arrival of
    a CID is balanced by one unpin, except the last one while it is still referenced.
   */
  lemma {:induction false} ArrivalsBalanceUnpins(tables: seq<Rows>, jobs: seq<Attempt>, n: nat, c: Cid)
    requires IsHistory(tables, jobs) && n <= |jobs|
    ensures Arrivals(tables, n, c) == Unpins(jobs, n, c) + if c in Referenced(tables[n]) then 1 else 0
  {
    if n > 0 {
      ArrivalsBalanceUnpins(tables, jobs, n - 1, c);
      UnpinsAtLastReference(tables, jobs, n - 1, c);
    }
  }

  // ----- Unpins are carried out after the transaction -----

  /** No job of `p` commits between attempts `j` and `n`. */
  predicate NoCommitBetween(jobs: seq<Attempt>, j: nat, n: nat, p: PeerId)
    requires n <= |jobs|
  {
    forall k | j < k < n :: jobs[k].committed ==> jobs[k].peer != p
  }

  lemma {:induction false} LastGraphOf(jobs: seq<Attempt>, j: nat, n: nat)
    requires j < n <= |jobs| && jobs[j].committed && NoCommitBetween(jobs, j, n, jobs[j].peer)
    ensures LastGraph(jobs[..n], jobs[j].peer) == Elements(jobs[j].graph)
    decreases n
  {
    assert jobs[..n][..n - 1] == jobs[..n - 1];
    if j < n - 1 {
      LastGraphOf(jobs, j, n - 1);
    }
  }

  lemma {:induction false} LastCommitOf(jobs: seq<Attempt>, n: nat, p: PeerId, c: Cid) returns (j: nat)
    requires n <= |jobs| && c in LastGraph(jobs[..n], p)
    ensures j < n && jobs[j].committed && jobs[j].peer == p && c in jobs[j].graph && NoCommitBetween(jobs, j, n, p)
  {
    assert jobs[..n][..n - 1] == jobs[..n - 1];
    if jobs[n - 1].committed && jobs[n - 1].peer == p {
      j := n - 1;
    } else {
      j := LastCommitOf(jobs, n - 1, p, c);
    }
  }

  /** Between attempts `i` and `n` a job recorded `c`, and its peer has not committed since. */
  ghost predicate RecordedAgain(jobs: seq<Attempt>, i: nat, n: nat, c: Cid)
    requires n <= |jobs|
  {
    exists j | i < j < n :: jobs[j].committed && c in jobs[j].graph && NoCommitBetween(jobs, j, n, jobs[j].peer)
  }

  /**
    An unpin that attempt `i` decided is carried out after the lock is released,
    perhaps after more commits.  It then hits a CID that is referenced again if and
    only if one of those commits recorded it and still stands.
   */
  lemma DelayedUnpinSafety(tables: seq<Rows>, jobs: seq<Attempt>, i: nat, n: nat, c: Cid)
    requires IsHistory(tables, jobs) && i < n <= |jobs| && UnpinsAt(jobs, i, c)
    ensures c in Referenced(tables[n]) <==> RecordedAgain(jobs, i, n, c)
  {
    ReferencedExact(tables[n], c);
    if c in Referenced(tables[n]) {
      var p :| Count(tables[n], c, p) > 0;
      LiveExact(tables[n], p, c);
      LiveIsLastGraph(tables, jobs, n, p);
      var j := LastCommitOf(jobs, n, p, c);
      assert j > i by { CommitAfterUnpin(tables, jobs, i, j, c, n); }
    }
    if RecordedAgain(jobs, i, n, c) {
      var j :| i < j < n && jobs[j].committed && c in jobs[j].graph && NoCommitBetween(jobs, j, n, jobs[j].peer);
      LastGraphOf(jobs, j, n);
      LiveIsLastGraph(tables, jobs, n, jobs[j].peer);
      LiveExact(tables[n], jobs[j].peer, c);
    }
  }

  /** A commit that still stands and holds `c` came after the attempt that unpinned `c`. */
  lemma CommitAfterUnpin(tables: seq<Rows>, jobs: seq<Attempt>, i: nat, j: nat, c: Cid, n: nat)
    requires IsHistory(tables, jobs) && i < n <= |jobs| && j < n && UnpinsAt(jobs, i, c)
    requires jobs[j].committed && c in jobs[j].graph && NoCommitBetween(jobs, j, n, jobs[j].peer)
    ensures j > i
  {
    UnpinsAtLastReference(tables, jobs, i, c);
    if j <= i {
      LastGraphOf(jobs, j, i + 1);
      LiveIsLastGraph(tables, jobs, i + 1, jobs[j].peer);
      LiveExact(tables[i + 1], jobs[j].peer, c);
      ReferencedExact(tables[i + 1], c);
      assert false;
    }
  }

  lemma FirstCommit(p: PeerId, c: Cid)
    ensures Outcome([], [Row(c, p)], Attempt(p, [c], true, []))
  {
    assert forall x, r :: Count([Row(c, p)], x, r) == if x == c && r == p then 1 else 0;
  }

  lemma MovingCommit(p: PeerId, c: Cid, d: Cid)
    requires c != d
    ensures Outcome([Row(c, p)], [Row(d, p)], Attempt(p, [d], true, [c]))
  {
    assert forall x, r :: Count([Row(c, p)], x, r) == if x == c && r == p then 1 else 0;
    assert forall x, r :: Count([Row(d, p)], x, r) == if x == d && r == p then 1 else 0;
  }

  lemma OtherCommit(p: PeerId, d: Cid, q: PeerId, c: Cid)
    requires p != q
    ensures Outcome([Row(d, p)], [Row(d, p), Row(c, q)], Attempt(q, [c], true, []))
  {
    assert forall x, r ::
             Count([Row(d, p), Row(c, q)], x, r) == Count([Row(d, p)], x, r) + if x == c && r == q then 1 else 0;
    assert forall x :: Count([Row(d, p)], x, q) == 0;
  }

  /** Such a run: `p` drops `c` and lists it, and `q` records it before the unpin is carried out. */
  lemma LateUnpinHitsReferenced(p: PeerId, q: PeerId, c: Cid, d: Cid)
    requires p != q && c != d
    ensures var tables := [[], [Row(c, p)], [Row(d, p)], [Row(d, p), Row(c, q)]];
            var jobs := [Attempt(p, [c], true, []), Attempt(p, [d], true, [c]), Attempt(q, [c], true, [])];
            && IsHistory(tables, jobs) && UnpinsAt(jobs, 1, c) && c in Referenced(tables[3])
  {
    FirstCommit(p, c);
    MovingCommit(p, c, d);
    OtherCommit(p, d, q, c);
    assert Row(c, q).cid == c && Row(c, q) in [Row(d, p), Row(c, q)];
  }

  // ----- Bans and the hourly loop unpin without looking at other peers -----

  /** The last committed job of some other peer recorded `c`. */
  ghost predicate RecordedElsewhere(jobs: seq<Attempt>, p: PeerId, c: Cid) {
    exists q :: q != p && c in LastGraph(jobs, q)
  }

  lemma HeldIsRecorded(tables: seq<Rows>, jobs: seq<Attempt>, n: nat, p: PeerId, c: Cid)
    requires IsHistory(tables, jobs) && n <= |jobs|
    ensures HeldElsewhere(tables[n], c, p) <==> RecordedElsewhere(jobs[..n], p, c)
  {
    if HeldElsewhere(tables[n], c, p) {
      var q :| q != p && Count(tables[n], c, q) > 0;
      LiveExact(tables[n], q, c);
      LiveIsLastGraph(tables, jobs, n, q);
      assert c in LastGraph(jobs[..n], q);
    }
    if RecordedElsewhere(jobs[..n], p, c) {
      var q :| q != p && c in LastGraph(jobs[..n], q);
      LiveIsLastGraph(tables, jobs, n, q);
      LiveExact(tables[n], q, c);
      assert Count(tables[n], c, q) > 0;
    }
  }

  /**
    `unpinned` is what `Database.UnpinPeer` answers for `p`.  It hits a CID that another
    peer holds if and only if the last committed jobs of `p` and of that other peer
    both recorded the CID, which can be decided from the jobs before the ban.
   */
  lemma PeerUnpinSafety(tables: seq<Rows>, jobs: seq<Attempt>, n: nat, p: PeerId, unpinned: seq<Cid>, c: Cid)
    requires IsHistory(tables, jobs) && n <= |jobs| && Elements(unpinned) == Live(tables[n], p)
    ensures c in unpinned && HeldElsewhere(tables[n], c, p) <==>
            c in LastGraph(jobs[..n], p) && RecordedElsewhere(jobs[..n], p, c)
  {
    assert c in unpinned <==> c in Elements(unpinned);
    LiveIsLastGraph(tables, jobs, n, p);
    HeldIsRecorded(tables, jobs, n, p, c);
  }

  /**
    The unpins are carried out after the ban's transaction, perhaps after more commits.
    What was read before attempt `i` and is unpinned before attempt `n` is then held by
    another peer if and only if the last jobs at those times say so.
   */
  lemma DelayedPeerUnpinSafety(tables: seq<Rows>, jobs: seq<Attempt>, i: nat, n: nat, p: PeerId, unpinned: seq<Cid>,
                               c: Cid)
    requires IsHistory(tables, jobs) && i <= n <= |jobs| && Elements(unpinned) == Live(tables[i], p)
    ensures c in unpinned && HeldElsewhere(tables[n], c, p) <==>
            c in LastGraph(jobs[..i], p) && RecordedElsewhere(jobs[..n], p, c)
    ensures c in unpinned && c in Referenced(tables[n]) <==>
            c in LastGraph(jobs[..i], p) && (c in LastGraph(jobs[..n], p) || RecordedElsewhere(jobs[..n], p, c))
  {
    assert c in unpinned <==> c in Elements(unpinned);
    LiveIsLastGraph(tables, jobs, i, p);
    LiveIsLastGraph(tables, jobs, n, p);
    LiveExact(tables[n], p, c);
    ReferencedExact(tables[n], c);
    HeldIsRecorded(tables, jobs, n, p, c);
  }

  /** A reachable table where a ban of `p` hits what `q` still references. */
  lemma SharedCidIsUnpinned(p: PeerId, q: PeerId, c: Cid)
    requires p != q
    ensures var rows := [Row(c, p), Row(c, q)];
            && IsHistory([[], [Row(c, p)], rows], [Attempt(p, [c], true, []), Attempt(q, [c], true, [])])
            && c in Live(rows, p) && HeldElsewhere(rows, c, p)
  {
    var rows := [Row(c, p), Row(c, q)];
    FirstCommit(p, c);
    OtherCommit(p, c, q, c);
    LiveExact(rows, p, c);
    assert Row(c, p) in rows && Row(c, q) in rows && Count(rows, c, q) > 0;
  }

  // ----- Runs in which loads and deletes fail as well -----

  /** An attempt with the failures it met. */
  datatype Trial = Trial(peer: PeerId, graph: seq<Cid>, db: Faults, ok: bool, toUnpin: seq<Cid>)

  /** What `Database.Reconcile` ensures of attempts whatever fails, from any table. */
  ghost predicate IsTrialRun(tables: seq<Rows>, trials: seq<Trial>) {
    && |tables| == |trials| + 1
    && forall i | 0 <= i < |trials| ::
         TransactionEffect(tables[i], tables[i + 1], trials[i].peer, trials[i].graph, trials[i].db,
                           trials[i].ok, trials[i].toUnpin)
  }

  predicate NoTrialBetween(trials: seq<Trial>, j: nat, n: nat, p: PeerId)
    requires n <= |trials|
  {
    forall k | j < k < n :: trials[k].ok ==> trials[k].peer != p
  }

  lemma OtherTrialKeeps(tables: seq<Rows>, trials: seq<Trial>, i: nat, p: PeerId)
    requires IsTrialRun(tables, trials) && i < |trials| && (trials[i].ok ==> trials[i].peer != p)
    ensures Live(tables[i + 1], p) == Live(tables[i], p)
  {
    var t := trials[i];
    if t.ok {
      MergedLive(tables[i], tables[i + 1], t.peer, t.graph, Loaded(tables[i], t.peer, t.db), t.db.deletes, p);
    }
  }

  lemma {:induction false} StaysConstant<T>(s: seq<T>, j: nat, n: nat)
    requires j <= n < |s| && forall i | j <= i < n :: s[i] == s[i + 1]
    ensures s[n] == s[j]
    decreases n
  {
    if j < n {
      StaysConstant(s, j, n - 1);
      assert s[n - 1] == s[n - 1 + 1];
    }
  }

  /** What a peer holds changes only at its own commits, even when other peers' statements fail. */
  lemma LiveKeptByOthers(tables: seq<Rows>, trials: seq<Trial>, j: nat, n: nat, p: PeerId)
    requires IsTrialRun(tables, trials) && j < n <= |trials| && NoTrialBetween(trials, j, n, p)
    ensures Live(tables[n], p) == Live(tables[j + 1], p)
  {
    var live := seq(|tables|, i requires 0 <= i < |tables| => Live(tables[i], p));
    forall i | j + 1 <= i < n
      ensures live[i] == live[i + 1]
    {
      OtherTrialKeeps(tables, trials, i, p);
    }
    StaysConstant(live, j + 1, n);
  }

  /**
    Whatever failed before, a peer holds at least the graph of its last commit, at
    most what it held then besides, and exactly the graph if that commit's load and
    deletes succeeded: leftovers of failed loads and deletes are repaired by the
    next good commit of the same peer.
   */
  lemma GoodCommitRepairs(tables: seq<Rows>, trials: seq<Trial>, j: nat, n: nat)
    requires IsTrialRun(tables, trials) && j < n <= |trials| && trials[j].ok
    requires NoTrialBetween(trials, j, n, trials[j].peer)
    ensures var t := trials[j];
            && Elements(t.graph) <= Live(tables[n], t.peer) <= Elements(t.graph) + Live(tables[j], t.peer)
            && (t.db.load && (forall i :: t.db.deletes(i)) ==> Live(tables[n], t.peer) == Elements(t.graph))
  {
    var t := trials[j];
    LiveKeptByOthers(tables, trials, j, n, t.peer);
    assert TransactionEffect(tables[j], tables[j + 1], t.peer, t.graph, t.db, t.ok, t.toUnpin);
    MergedLive(tables[j], tables[j + 1], t.peer, t.graph, Loaded(tables[j], t.peer, t.db), t.db.deletes, t.peer);
    if t.db.load && forall i :: t.db.deletes(i) {
      MergedIsReconciled(tables[j], tables[j + 1], t.peer, t.graph, t.db.deletes);
      LiveIsNewGraph(tables[j], tables[j + 1], t.peer, t.graph, t.peer);
    }
  }
}
