/**
  The hourly loop: which peers its query can select, and what it unpins for them.
  Its log messages speak of dead peers; its query selects the ones that are not.
 */
module HourlyLoop {
  import opened Base
  import opened Peers
  import opened Query
  import opened PeerMachine
  import opened CidTable
  import opened CidHistory
  import opened Unpinning

  /** The answer of the hourly query. Banned peers are not left out. */
  predicate IsHourlyBatch(t: Table, now: Time, batch: seq<PeerId>) {
    IsOldestOf(t, FreshPeers(t, now), BATCH, batch)
  }

  ghost predicate CanBeSelected(t: Table, now: Time, p: PeerId) {
    exists batch :: IsHourlyBatch(t, now, batch) && p in batch
  }

  ghost predicate MustBeSelected(t: Table, now: Time, p: PeerId) {
    forall batch :: IsHourlyBatch(t, now, batch) ==> p in batch
  }

  /**
    The peers a tick can select are those whose record has not expired, that were
    seen in the last 90 days, and that have fewer than ten such peers before them.
   */
  lemma SelectedExactly(t: Table, now: Time, p: PeerId)
    ensures CanBeSelected(t, now, p) <==> Fresh(t, p, now) && |StrictlyBefore(t, FreshPeers(t, now), p)| < BATCH
  {
    if CanBeSelected(t, now, p) {
      var batch :| IsHourlyBatch(t, now, batch) && p in batch;
      assert p in FreshPeers(t, now);
    }
    if Fresh(t, p, now) {
      ChosenExactly(t, FreshPeers(t, now), BATCH, p);
      assert CanBeSelected(t, now, p) <==> CanBeChosen(t, FreshPeers(t, now), BATCH, p);
    }
  }

  /** And those it has to select have fewer than ten others before them or level. */
  lemma AlwaysSelectedExactly(t: Table, now: Time, p: PeerId)
    ensures MustBeSelected(t, now, p) <==> Fresh(t, p, now) && |Before(t, FreshPeers(t, now), p)| < BATCH
  {
    var fresh' := FreshPeers(t, now);
    if Fresh(t, p, now) {
      LeftOutExactly(t, fresh', BATCH, p);
      assert MustBeSelected(t, now, p) <==> !CanBeLeftOut(t, fresh', BATCH, p);
    } else {
      var batch := BatchExists(t, fresh', BATCH);
      assert IsHourlyBatch(t, now, batch) && p !in batch;
    }
  }

  /** A dead peer, expired or unseen for 90 days, is never selected, so the loop never unpins what it left. */
  lemma DeadPeersAreKept(t: Table, now: Time, batch: seq<PeerId>, p: PeerId)
    requires IsHourlyBatch(t, now, batch)
    requires p in t ==> t[p].expiration <= now || t[p].lastSeen <= now - FORGET_AFTER
    ensures p !in batch
  {
    SelectedExactly(t, now, p);
    assert p in batch ==> CanBeSelected(t, now, p);
  }

  /** Everything live of the peers of `batch` whose records could be loaded. */
  function Dropped(rows: Rows, batch: seq<PeerId>, loads: nat -> bool): set<Cid> {
    if batch == [] then {} else
      var n := |batch| - 1;
      Dropped(rows, batch[..n], loads) + if loads(n) then Live(rows, batch[n]) else {}
  }

  lemma {:induction false} DroppedExact(rows: Rows, batch: seq<PeerId>, loads: nat -> bool, c: Cid)
    ensures c in Dropped(rows, batch, loads) <==> exists i | 0 <= i < |batch| :: loads(i) && c in Live(rows, batch[i])
  {
    if batch != [] {
      DroppedExact(rows, batch[..|batch| - 1], loads, c);
    }
  }

  lemma LiveIsReferenced(rows: Rows, p: PeerId)
    ensures Live(rows, p) <= Referenced(rows)
  {
    forall c | c in Live(rows, p)
      ensures c in Referenced(rows)
    {
      LiveExact(rows, p, c);
      ReferencedExact(rows, c);
    }
  }

  /**
    One hourly tick, after its query.  The nodes are asked to unpin all that the
    selected peers hold, and so only CIDs that are still referenced; the rows stay.
   */
  method UnpinBatch(db: Database, batch: seq<PeerId>, loads: nat -> bool, nodes: Nodes)
    returns (unpinned: seq<Cid>, asked: seq<Request>)
    ensures Elements(unpinned) == Dropped(db.rows, batch, loads) <= Referenced(db.rows)
    ensures asked == Requests(nodes, unpinned)
  {
    unpinned, asked := [], [];
    for i := 0 to |batch|
      invariant Elements(unpinned) == Dropped(db.rows, batch[..i], loads) <= Referenced(db.rows)
      invariant asked == Requests(nodes, unpinned)
    {
      assert batch[..i + 1][..i] == batch[..i];
      if loads(i) {
        var cids := db.UnpinPeer(batch[i]);
        assert Elements(unpinned + cids) == Elements(unpinned) + Elements(cids);
        LiveIsReferenced(db.rows, batch[i]);
        asked := UnpinMore(nodes, unpinned, asked, cids);
        unpinned := unpinned + cids;
      }
    }
    TakeAll(batch);
  }

  /** With every lookup successful every node is asked to unpin exactly what is dropped. */
  lemma BatchAsksAllNodes(dropped: set<Cid>, unpinned: seq<Cid>, nodes: Nodes, c: Cid, node: nat)
    requires Elements(unpinned) == dropped
    requires (forall i: nat, m: nat :: nodes.lookup(i, m)) && node < nodes.count
    ensures Asked(nodes, unpinned, c, node) <==> c in dropped
  {
    AllNodesAsked(nodes, unpinned, c, node);
    assert c in Elements(unpinned) <==> c in unpinned;
  }

  /** In terms of jobs: a tick drops the graph of the last committed job of each selected peer. */
  lemma DropsLastGraphs(tables: seq<Rows>, jobs: seq<Attempt>, n: nat, batch: seq<PeerId>, loads: nat -> bool, c: Cid)
    requires IsHistory(tables, jobs) && n <= |jobs|
    ensures c in Dropped(tables[n], batch, loads) <==>
            exists i | 0 <= i < |batch| :: loads(i) && c in LastGraph(jobs[..n], batch[i])
  {
    DroppedExact(tables[n], batch, loads, c);
    forall i | 0 <= i < |batch|
      ensures Live(tables[n], batch[i]) == LastGraph(jobs[..n], batch[i])
    {
      LiveIsLastGraph(tables, jobs, n, batch[i]);
    }
  }

  function AllLoad(): nat -> bool {
    (n: nat) => true
  }

  /** A peer publishes its first record, and its job is taken and ends. */
  function FirstCrawl(p: PeerId): seq<Step> {
    [Publish(p, DAY, "", 0, 0, true, true), Take(0), Finish(0, 0, 0, true)]
  }

  /**
    A live peer loses its pins: just seen, just crawled, not banned, the only peer
    there is, and with all of its last graph referenced by nobody else, it is
    selected, and if the lookups succeed every node is asked to unpin its whole graph.
   */
  lemma LivePeerLosesPins(p: PeerId, graph: seq<Cid>, unpinned: seq<Cid>, nodes: Nodes, c: Cid, node: nat)
    returns (states: seq<State>, rows: Rows)
    requires p != NO_PEER && forall i, j | 0 <= i < j < |graph| :: graph[i] != graph[j]
    requires (forall i: nat, m: nat :: nodes.lookup(i, m)) && node < nodes.count
    ensures IsRun(states, FirstCrawl(p)) && IsStart(states[0])
    ensures IsHistory([[], rows], [Attempt(p, graph, true, [])])
    ensures var s := states[|FirstCrawl(p)|];
            && p in s.peers && s.peers[p].lastSeen == s.now && !s.peers[p].banned
            && MustBeSelected(s.peers, s.now, p)
            && Dropped(rows, [p], AllLoad()) == Elements(graph)
    ensures Elements(unpinned) == Dropped(rows, [p], AllLoad()) ==> (Asked(nodes, unpinned, c, node) <==> c in graph)
  {
    states := FirstCrawlRuns(p);
    rows := seq(|graph|, i requires 0 <= i < |graph| => Row(graph[i], p));
    FirstRows(p, graph, rows);
    assert Outcome([], rows, Attempt(p, graph, true, []));
    LiveIsNewGraph([], rows, p, graph, p);
    assert [p][..0] == [] && Dropped(rows, [p][..0], AllLoad()) == {};
    assert Dropped(rows, [p], AllLoad()) == Elements(graph);
    if Elements(unpinned) == Dropped(rows, [p], AllLoad()) {
      BatchAsksAllNodes(Elements(graph), unpinned, nodes, c, node);
    }
  }

  lemma FirstCrawlRuns(p: PeerId) returns (states: seq<State>)
    requires p != NO_PEER
    ensures IsRun(states, FirstCrawl(p)) && IsStart(states[0])
    ensures var s := states[|FirstCrawl(p)|];
            && p in s.peers && s.peers[p].lastSeen == s.now && !s.peers[p].banned
            && MustBeSelected(s.peers, s.now, p)
  {
    var s0 := State(map[], 0, map[], 0);
    var s1 := Apply(s0, FirstCrawl(p)[0]);
    var s2 := Apply(s1, FirstCrawl(p)[1]);
    var s3 := Apply(s2, FirstCrawl(p)[2]);
    states := [s0, s1, s2, s3];
    assert FreshPeers(s3.peers, s3.now) == {p};
    assert Before(s3.peers, {p}, p) == {};
    AlwaysSelectedExactly(s3.peers, s3.now, p);
  }

  lemma {:induction false} FirstRows(p: PeerId, graph: seq<Cid>, rows: Rows)
    requires |rows| == |graph| && forall i | 0 <= i < |graph| :: rows[i] == Row(graph[i], p)
    requires forall i, j | 0 <= i < j < |graph| :: graph[i] != graph[j]
    ensures Reconciled([], rows, p, graph)
  {
    if graph != [] {
      var n := |graph| - 1;
      FirstRows(p, graph[..n], rows[..n]);
      assert rows == rows[..n] + [Row(graph[n], p)];
      assert graph == graph[..n] + [graph[n]];
    }
  }
}
