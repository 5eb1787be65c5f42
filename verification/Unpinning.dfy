/**
  `unpinCID` on a list of CIDs: every node in turn is asked to unpin each of them.
  Crawl jobs, bans and the hourly loop all go through it.
 */
module Unpinning {
  import opened Base
  import opened CidTable

  /**
    What the `count` nodes answer, by position in the list and number of the node:
    whether the node's API can be had, and whether it removes the pin when asked.
   */
  datatype Nodes = Nodes(count: nat, lookup: (nat, nat) -> bool, removes: (nat, nat) -> bool)

  /** A node was asked to unpin a CID, and did or refused. */
  datatype Request = Request(cid: Cid, node: nat, removed: bool)

  /** The API lookups of the first `n` nodes succeed for entry `i` of the list. */
  predicate LooksUp(nodes: Nodes, i: nat, n: nat) {
    forall m | 0 <= m < n :: nodes.lookup(i, m)
  }

  /** Nodes are asked in order up to the first failed lookup, whatever they answer. */
  function UnpinEntry(nodes: Nodes, c: Cid, i: nat, n: nat): seq<Request> {
    if n == 0 then [] else
      UnpinEntry(nodes, c, i, n - 1) + if LooksUp(nodes, i, n) then [Request(c, n - 1, nodes.removes(i, n - 1))] else []
  }

  function Requests(nodes: Nodes, cids: seq<Cid>): seq<Request> {
    if cids == [] then [] else
      var n := |cids| - 1;
      Requests(nodes, cids[..n]) + UnpinEntry(nodes, cids[n], n, nodes.count)
  }

  lemma {:induction false} UnpinEntryExact(nodes: Nodes, c: Cid, i: nat, n: nat, r: Request)
    ensures r in UnpinEntry(nodes, c, i, n) <==>
            r.cid == c && r.node < n && LooksUp(nodes, i, r.node + 1) && r.removed == nodes.removes(i, r.node)
  {
    if n > 0 {
      UnpinEntryExact(nodes, c, i, n - 1, r);
    }
  }

  /** Some entry of the list for `c` gets as far as `node`, which answers `removed`. */
  ghost predicate NodeAsked(nodes: Nodes, cids: seq<Cid>, c: Cid, node: nat, removed: bool) {
    exists i | 0 <= i < |cids| ::
      cids[i] == c && node < nodes.count && LooksUp(nodes, i, node + 1) && nodes.removes(i, node) == removed
  }

  lemma NodeAskedNext(nodes: Nodes, cids: seq<Cid>, d: Cid, c: Cid, node: nat, removed: bool)
    ensures NodeAsked(nodes, cids + [d], c, node, removed) <==>
            || NodeAsked(nodes, cids, c, node, removed)
            || (d == c && node < nodes.count && LooksUp(nodes, |cids|, node + 1)
                && nodes.removes(|cids|, node) == removed)
  {
    var all := cids + [d];
    if NodeAsked(nodes, cids, c, node, removed) {
      var i :| 0 <= i < |cids| && cids[i] == c
               && node < nodes.count && LooksUp(nodes, i, node + 1) && nodes.removes(i, node) == removed;
      assert all[i] == c;
    }
    assert all[|cids|] == d;
  }

  /** A node is asked exactly for the CIDs of which some entry gets as far as the node. */
  lemma {:induction false} RequestsExact(nodes: Nodes, cids: seq<Cid>, r: Request)
    ensures r in Requests(nodes, cids) <==> NodeAsked(nodes, cids, r.cid, r.node, r.removed)
  {
    if cids != [] {
      var n := |cids| - 1;
      RequestsExact(nodes, cids[..n], r);
      UnpinEntryExact(nodes, cids[n], n, nodes.count, r);
      NodeAskedNext(nodes, cids[..n], cids[n], r.cid, r.node, r.removed);
      assert cids[..n] + [cids[n]] == cids;
    }
  }

  /** Node `node` is asked to unpin `c`, whatever it answers. */
  ghost predicate Asked(nodes: Nodes, cids: seq<Cid>, c: Cid, node: nat) {
    exists removed :: Request(c, node, removed) in Requests(nodes, cids)
  }

  /** With every lookup successful every node is asked for exactly the CIDs of the list. */
  lemma AllNodesAsked(nodes: Nodes, cids: seq<Cid>, c: Cid, node: nat)
    requires (forall i: nat, m: nat :: nodes.lookup(i, m)) && node < nodes.count
    ensures Asked(nodes, cids, c, node) <==> c in cids
  {
    RequestsExact(nodes, cids, Request(c, node, true));
    RequestsExact(nodes, cids, Request(c, node, false));
    if c in cids {
      var i :| 0 <= i < |cids| && cids[i] == c;
      assert LooksUp(nodes, i, node + 1);
      assert NodeAsked(nodes, cids, c, node, nodes.removes(i, node));
      assert Request(c, node, nodes.removes(i, node)) in Requests(nodes, cids);
    }
  }

  lemma LooksUpFirst(nodes: Nodes, i: nat, n: nat)
    requires n > 0
    ensures LooksUp(nodes, i, n) ==> nodes.lookup(i, 0)
  {
    if LooksUp(nodes, i, n) {
      assert nodes.lookup(i, 0);
    }
  }

  /** With every lookup of the first node failing nobody is asked anything. */
  lemma NoNodeAsked(nodes: Nodes, cids: seq<Cid>, c: Cid, node: nat)
    requires forall i: nat :: !nodes.lookup(i, 0)
    ensures !Asked(nodes, cids, c, node)
  {
    var n := node + 1;
    forall i | 0 <= i < |cids|
      ensures !LooksUp(nodes, i, n)
    {
      LooksUpFirst(nodes, i, n);
    }
    RequestsExact(nodes, cids, Request(c, node, true));
    RequestsExact(nodes, cids, Request(c, node, false));
  }

  /** Once a lookup has failed no further node is asked. */
  lemma {:induction false} StopsAtFailure(nodes: Nodes, c: Cid, i: nat, m: nat, n: nat)
    requires m < n && !nodes.lookup(i, m)
    ensures UnpinEntry(nodes, c, i, n) == UnpinEntry(nodes, c, i, m)
    decreases n
  {
    assert !LooksUp(nodes, i, n);
    if m < n - 1 {
      StopsAtFailure(nodes, c, i, m, n - 1);
    }
  }

  /**
    Asks each node in turn to unpin entry `i` of a list.  A failed lookup of a
    node's API ends it; a failed removal is not looked at.
   */
  method UnpinCid(nodes: Nodes, id: Cid, i: nat) returns (asked: seq<Request>)
    ensures asked == UnpinEntry(nodes, id, i, nodes.count)
  {
    asked := [];
    for n := 0 to nodes.count
      invariant LooksUp(nodes, i, n) && asked == UnpinEntry(nodes, id, i, n)
    {
      if !nodes.lookup(i, n) {
        StopsAtFailure(nodes, id, i, n, nodes.count);
        return;
      }
      assert LooksUp(nodes, i, n + 1);
      asked := asked + [Request(id, n, nodes.removes(i, n))];
    }
  }

  lemma RequestsNext(nodes: Nodes, cids: seq<Cid>, c: Cid)
    ensures Requests(nodes, cids + [c]) == Requests(nodes, cids) + UnpinEntry(nodes, c, |cids|, nodes.count)
  {
    assert (cids + [c])[..|cids|] == cids;
  }

  lemma JoinNext<T>(done: seq<T>, s: seq<T>, i: nat)
    requires i < |s|
    ensures done + s[..i + 1] == done + s[..i] + [s[i]] && |done + s[..i]| == |done| + i
  {
  }

  lemma JoinEnds<T>(done: seq<T>, s: seq<T>)
    ensures done + s[..0] == done && done + s[..|s|] == done + s
  {
    TakeAll(s);
  }

  /** The loop over a list of CIDs, after those of `done`; an error is only logged. */
  method UnpinMore(nodes: Nodes, done: seq<Cid>, asked0: seq<Request>, cids: seq<Cid>) returns (asked: seq<Request>)
    requires asked0 == Requests(nodes, done)
    ensures asked == Requests(nodes, done + cids)
  {
    asked := asked0;
    JoinEnds(done, cids);
    for i := 0 to |cids|
      invariant asked == Requests(nodes, done + cids[..i])
    {
      JoinNext(done, cids, i);
      RequestsNext(nodes, done + cids[..i], cids[i]);
      var more := UnpinCid(nodes, cids[i], |done| + i);
      asked := asked + more;
    }
  }

  method UnpinAll(nodes: Nodes, cids: seq<Cid>) returns (asked: seq<Request>)
    ensures asked == Requests(nodes, cids)
  {
    asked := UnpinMore(nodes, [], [], cids);
    assert [] + cids == cids;
  }

  /** What follows the transaction of a ban: the nodes are asked to unpin all that the peer holds. */
  method UnpinBanned(db: Database, p: PeerId, nodes: Nodes) returns (unpinned: seq<Cid>, asked: seq<Request>)
    ensures Elements(unpinned) == Live(db.rows, p) && asked == Requests(nodes, unpinned)
  {
    unpinned := db.UnpinPeer(p);
    asked := UnpinAll(nodes, unpinned);
  }
}
