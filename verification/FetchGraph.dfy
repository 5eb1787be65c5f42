/** `fetchGraph`: the worklist walk that lists every block under a root. */
module FetchGraph {
  import opened Base
  import opened Dag

  /**
    Whether the `n`-th fetch of a walk, of node `x`, succeeds: the block exists and
    the network delivers it in time.  The same node may be fetched again later
    with a different outcome.
   */
  predicate Fetched(g: Graph, delivers: (nat, Cid) -> bool, n: nat, x: Cid) {
    x in g && delivers(n, x)
  }

  /** What is left of the walk's promise when `ret` has been listed and `m` is still to be processed. */
  ghost predicate WalkInvariant(g: Graph, root: Cid, m: set<Cid>, ret: seq<Cid>)
    requires Acyclic(g)
  {
    && (if ret == [] then m == {root} else ret[0] == root)
    && (forall x :: x in m || x in ret ==> Reaches(g, root, x))
    && (forall x :: x in ret ==> Links(g, x) <= m + Elements(ret))
    && (forall of :: Visits(of, ret) + Weight(g, of, m) <= Weight(g, of, {root}))
  }

  lemma WalkStarts(g: Graph, root: Cid)
    requires Acyclic(g)
    ensures WalkInvariant(g, root, {root}, [])
  {
    ReachesSelf(g, root);
  }

  lemma WalkStep(g: Graph, root: Cid, m: set<Cid>, ret: seq<Cid>, k: Cid)
    requires Acyclic(g) && WalkInvariant(g, root, m, ret) && k in m
    ensures WalkInvariant(g, root, m - {k} + Links(g, k), ret + [k])
    ensures Weight(g, None, m - {k} + Links(g, k)) < Weight(g, None, m)
  {
    var m', ret' := m - {k} + Links(g, k), ret + [k];
    WeightStep(g, None, m, k);
    forall of
      ensures Visits(of, ret') + Weight(g, of, m') <= Weight(g, of, {root})
    {
      WeightStep(g, of, m, k);
      assert Visits(of, ret') == Visits(of, ret) + Tally(of, k);
    }
    forall x | x in Links(g, k)
      ensures Reaches(g, root, x)
    {
      ReachesNext(g, root, k, x);
    }
    assert Elements(ret') == Elements(ret) + {k};
  }

  /** What holds of the list however the walk ends. */
  ghost predicate Listing(g: Graph, root: Cid, ret: seq<Cid>)
    requires Acyclic(g)
  {
    && |ret| > 0 && ret[0] == root
    && (forall x :: x in ret ==> Reaches(g, root, x))
    && (forall y :: multiset(ret)[y] <= |PathsFrom(g, {root}, y)|)
    && |ret| <= Weight(g, None, {root})
  }

  /** Visits are bounded by the number of paths, node by node and in total. */
  lemma VisitsBounded(g: Graph, root: Cid, ret: seq<Cid>)
    requires Acyclic(g)
    requires |ret| > 0 && ret[0] == root && (forall x :: x in ret ==> Reaches(g, root, x))
    requires forall of :: Visits(of, ret) <= Weight(g, of, {root})
    ensures Listing(g, root, ret)
  {
    forall y
      ensures multiset(ret)[y] <= |PathsFrom(g, {root}, y)|
    {
      assert Visits(Some(y), ret) <= Weight(g, Some(y), {root});
      WeightCountsPaths(g, {root}, y);
    }
    assert Visits(None, ret) <= Weight(g, None, {root});
  }

  /** A failed fetch has listed its node without taking it off the worklist. */
  lemma WalkFails(g: Graph, root: Cid, m: set<Cid>, ret: seq<Cid>, k: Cid)
    requires Acyclic(g) && WalkInvariant(g, root, m, ret) && k in m
    ensures Listing(g, root, ret + [k])
  {
    forall of
      ensures Visits(of, ret + [k]) <= Weight(g, of, {root})
    {
      WeightStep(g, of, m, k);
      assert Visits(of, ret + [k]) == Visits(of, ret) + Tally(of, k);
    }
    VisitsBounded(g, root, ret + [k]);
  }

  /** With nothing left to process, all that the root reaches has been listed. */
  lemma WalkEnds(g: Graph, root: Cid, ret: seq<Cid>)
    requires Acyclic(g) && WalkInvariant(g, root, {}, ret)
    ensures Listing(g, root, ret)
    ensures forall x :: Reaches(g, root, x) ==> x in ret
  {
    forall x | Reaches(g, root, x)
      ensures x in ret
    {
      var p :| IsPathBetween(g, p, root, x);
      ClosedHoldsReachable(g, Elements(ret), p);
    }
    VisitsBounded(g, root, ret);
  }

  /**
    Acyclicity is needed: an entry from which a cycle can be reached keeps the
    worklist non-empty through every step, so a walk without an error never ends.
   */
  lemma CycleKeepsWorklistFull(g: Graph, m: set<Cid>, k: Cid, cycle: seq<Cid>)
    requires IsPath(g, cycle) && |cycle| > 1 && cycle[0] == cycle[|cycle| - 1]
    requires k in m && exists x :: x in m && Reaches(g, x, cycle[0])
    ensures exists x :: x in m - {k} + Links(g, k) && Reaches(g, x, cycle[0])
  {
    var x :| x in m && Reaches(g, x, cycle[0]);
    if x == k {
      var p :| IsPathBetween(g, p, k, cycle[0]);
      var onward := if |p| > 1 then p else cycle;
      assert IsPathBetween(g, onward[1..], onward[1], cycle[0]);
      assert Reaches(g, onward[1], cycle[0]);
    } else {
      assert x in m - {k} + Links(g, k);
    }
  }

  /** The first `n` fetches, of the first `n` listed nodes, all succeeded. */
  predicate AllFetched(g: Graph, delivers: (nat, Cid) -> bool, ret: seq<Cid>, n: nat)
    requires n <= |ret|
  {
    forall i | 0 <= i < n :: Fetched(g, delivers, i, ret[i])
  }

  // ----- Which walks are possible -----

  /** What is left to process when the nodes `ret` have been. */
  function Worklist(g: Graph, root: Cid, ret: seq<Cid>): set<Cid> {
    if ret == [] then {root} else
      var n := |ret| - 1;
      Worklist(g, root, ret[..n]) - {ret[n]} + Links(g, ret[n])
  }

  /** Each node was on the worklist when it was picked. */
  predicate IsWalk(g: Graph, root: Cid, ret: seq<Cid>) {
    ret == [] || (var n := |ret| - 1; IsWalk(g, root, ret[..n]) && ret[n] in Worklist(g, root, ret[..n]))
  }

  /** A walk that has come to its end: a fetch has failed, or nothing is left. */
  predicate WholeWalk(g: Graph, root: Cid, delivers: (nat, Cid) -> bool, ret: seq<Cid>) {
    && |ret| > 0 && IsWalk(g, root, ret) && AllFetched(g, delivers, ret, |ret| - 1)
    && (Fetched(g, delivers, |ret| - 1, ret[|ret| - 1]) ==> Worklist(g, root, ret) == {})
  }

  lemma WalkNext(g: Graph, root: Cid, ret: seq<Cid>, k: Cid)
    ensures Worklist(g, root, ret + [k]) == Worklist(g, root, ret) - {k} + Links(g, k)
    ensures IsWalk(g, root, ret + [k]) <==> IsWalk(g, root, ret) && k in Worklist(g, root, ret)
  {
    assert (ret + [k])[..|ret|] == ret;
  }

  lemma {:induction false} WalkBeginsAtRoot(g: Graph, root: Cid, ret: seq<Cid>)
    requires IsWalk(g, root, ret) && |ret| > 0
    ensures ret[0] == root
  {
    if |ret| > 1 {
      WalkBeginsAtRoot(g, root, ret[..|ret| - 1]);
    } else {
      assert ret[..0] == [];
    }
  }

  /** The walk as the loops have it: the map, what the current range has yet to visit, and the list. */
  datatype Ranging = Ranging(m: set<Cid>, range: set<Cid>, ret: seq<Cid>)

  /** A new range over the map begins. */
  predicate BeginsRange(a: Ranging, b: Ranging) {
    a.range == {} && a.m != {} && b == a.(range := a.m)
  }

  /** The range visits `k`, and of the links that this adds it will visit `added`. */
  predicate VisitsNext(g: Graph, a: Ranging, k: Cid, added: set<Cid>, b: Ranging) {
    && k in a.range && added <= Links(g, k)
    && b == Ranging(a.m - {k} + Links(g, k), a.range - {k} + added, a.ret + [k])
  }

  ghost predicate RangeStep(g: Graph, a: Ranging, b: Ranging) {
    BeginsRange(a, b) || exists k, added :: VisitsNext(g, a, k, added, b)
  }

  ghost predicate IsRangeRun(g: Graph, root: Cid, run: seq<Ranging>) {
    && |run| > 0 && run[0] == Ranging({root}, {}, [])
    && forall i | 0 <= i < |run| - 1 :: RangeStep(g, run[i], run[i + 1])
  }

  /** Some choices of the ranges list `ret`. */
  ghost predicate CanBeListed(g: Graph, root: Cid, ret: seq<Cid>) {
    exists run: seq<Ranging> :: IsRangeRun(g, root, run) && run[|run| - 1].ret == ret
  }

  lemma {:induction false} RangeRunWalks(g: Graph, root: Cid, run: seq<Ranging>)
    requires IsRangeRun(g, root, run)
    ensures var a := run[|run| - 1]; a.range <= a.m && a.m == Worklist(g, root, a.ret) && IsWalk(g, root, a.ret)
  {
    if |run| > 1 {
      var n := |run| - 1;
      RangeRunWalks(g, root, run[..n]);
      assert RangeStep(g, run[n - 1], run[n - 1 + 1]);
      if !BeginsRange(run[n - 1], run[n]) {
        var k, added :| VisitsNext(g, run[n - 1], k, added, run[n]);
        WalkNext(g, root, run[n - 1].ret, k);
      }
    }
  }

  lemma RangeRunGoesOn(g: Graph, root: Cid, run: seq<Ranging>, b: Ranging)
    requires IsRangeRun(g, root, run) && RangeStep(g, run[|run| - 1], b)
    ensures IsRangeRun(g, root, run + [b])
  {
    var longer := run + [b];
    forall i | 0 <= i < |longer| - 1
      ensures RangeStep(g, longer[i], longer[i + 1])
    {
      if i < |run| - 1 {
        assert longer[i] == run[i] && longer[i + 1] == run[i + 1];
      }
    }
  }

  /** Every walk can come about: let each range visit all that is added while it lasts. */
  lemma {:induction false} WalkCanBeRanged(g: Graph, root: Cid, ret: seq<Cid>) returns (run: seq<Ranging>)
    requires IsWalk(g, root, ret)
    ensures IsRangeRun(g, root, run)
    ensures run[|run| - 1] == Ranging(Worklist(g, root, ret), Worklist(g, root, ret), ret)
  {
    if ret == [] {
      var first := Ranging({root}, {}, []);
      assert BeginsRange(first, first.(range := {root}));
      run := [first, first.(range := {root})];
    } else {
      var n := |ret| - 1;
      var before := WalkCanBeRanged(g, root, ret[..n]);
      var m, k := Worklist(g, root, ret[..n]), ret[n];
      var b := Ranging(m - {k} + Links(g, k), m - {k} + Links(g, k), ret[..n] + [k]);
      assert VisitsNext(g, before[|before| - 1], k, Links(g, k), b);
      RangeRunGoesOn(g, root, before, b);
      assert ret[..n] + [k] == ret;
      run := before + [b];
    }
  }

  /** The lists that the loops can produce are exactly the walks. */
  lemma ListedExactly(g: Graph, root: Cid, ret: seq<Cid>)
    ensures CanBeListed(g, root, ret) <==> IsWalk(g, root, ret)
  {
    if CanBeListed(g, root, ret) {
      var run: seq<Ranging> :| IsRangeRun(g, root, run) && run[|run| - 1].ret == ret;
      RangeRunWalks(g, root, run);
    }
    if IsWalk(g, root, ret) {
      var run := WalkCanBeRanged(g, root, ret);
      assert IsRangeRun(g, root, run) && run[|run| - 1].ret == ret;
    }
  }

  /** The list so far is a walk, what it left is in the map, and all its fetches succeeded. */
  predicate WalkSoFar(g: Graph, root: Cid, delivers: (nat, Cid) -> bool, m: set<Cid>, ret: seq<Cid>) {
    IsWalk(g, root, ret) && m == Worklist(g, root, ret) && AllFetched(g, delivers, ret, |ret|)
  }

  lemma WalkGoesOn(g: Graph, root: Cid, delivers: (nat, Cid) -> bool, m: set<Cid>, ret: seq<Cid>, k: Cid)
    requires WalkSoFar(g, root, delivers, m, ret) && k in m
    ensures Fetched(g, delivers, |ret|, k) ==> WalkSoFar(g, root, delivers, m - {k} + Links(g, k), ret + [k])
    ensures !Fetched(g, delivers, |ret|, k) ==> WholeWalk(g, root, delivers, ret + [k])
  {
    WalkNext(g, root, ret, k);
  }

  lemma WalkIsWhole(g: Graph, root: Cid, delivers: (nat, Cid) -> bool, ret: seq<Cid>)
    requires WalkSoFar(g, root, delivers, {}, ret)
    ensures WholeWalk(g, root, delivers, ret) && Fetched(g, delivers, |ret| - 1, ret[|ret| - 1])
  {
    assert ret != [];
  }

  /**
    The map is ranged over while it changes: an entry that is there when a range
    begins is visited unless it is deleted first, and an entry added meanwhile may
    be visited or skipped, so `added` below is any subset of the new links and the
    entry picked is any entry.

    Whatever the choices, the walk ends; it visits each node at most once per path
    from the root; without an error it lists exactly the reachable nodes; and with
    an error it lists reachable nodes up to and including the first that failed.
   */
  method Fetch(g: Graph, root: Cid, delivers: (nat, Cid) -> bool) returns (ret: seq<Cid>, failed: bool)
    requires Acyclic(g)
    ensures Listing(g, root, ret)
    ensures !failed ==> forall x :: Reaches(g, root, x) ==> x in ret
    ensures WholeWalk(g, root, delivers, ret)
    ensures failed <==> !Fetched(g, delivers, |ret| - 1, ret[|ret| - 1])
  {
    ret, failed := [], false;
    var m := {root};
    WalkStarts(g, root);
    while m != {}
      invariant WalkInvariant(g, root, m, ret) && WalkSoFar(g, root, delivers, m, ret)
      decreases Weight(g, None, m)
    {
      ghost var before := Weight(g, None, m);
      var range := m;
      while range != {}
        invariant range <= m
        invariant WalkInvariant(g, root, m, ret) && WalkSoFar(g, root, delivers, m, ret)
        invariant Weight(g, None, m) <= before
        invariant range != {} || Weight(g, None, m) < before
        decreases Weight(g, None, m)
      {
        var k :| k in range;
        WalkGoesOn(g, root, delivers, m, ret, k);
        if !Fetched(g, delivers, |ret|, k) {
          WalkFails(g, root, m, ret, k);
          ret := ret + [k];
          return ret, true;
        }
        WalkStep(g, root, m, ret, k);
        ret := ret + [k];
        m := m - {k};
        m := m + Links(g, k);
        var added :| added <= Links(g, k);
        range := range - {k} + added;
      }
    }
    WalkEnds(g, root, ret);
    WalkIsWhole(g, root, delivers, ret);
  }
}
