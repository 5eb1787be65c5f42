/**
  Finite link graphs: paths, reachability, and a count of the paths out of a
  worklist.  Content addressing makes a link graph acyclic; nothing else about it
  is assumed, and a link may point at a block that no node holds.
 */
module Dag {
  import opened Base

  type Graph = map<Cid, seq<Cid>>

  function Links(g: Graph, x: Cid): set<Cid> {
    if x in g then Elements(g[x]) else {}
  }

  // ----- Paths and reachability -----

  ghost predicate IsPath(g: Graph, p: seq<Cid>) {
    |p| > 0 && (|p| > 1 ==> p[1] in Links(g, p[0]) && IsPath(g, p[1..]))
  }

  ghost predicate IsPathBetween(g: Graph, p: seq<Cid>, x: Cid, y: Cid) {
    IsPath(g, p) && p[0] == x && p[|p| - 1] == y
  }

  ghost predicate Reaches(g: Graph, x: Cid, y: Cid) {
    exists p :: IsPathBetween(g, p, x, y)
  }

  /** No path comes back to where it started. */
  ghost predicate Acyclic(g: Graph) {
    forall p :: IsPath(g, p) && |p| > 1 ==> p[0] != p[|p| - 1]
  }

  lemma ReachesSelf(g: Graph, x: Cid)
    ensures Reaches(g, x, x)
  {
    assert IsPathBetween(g, [x], x, x);
  }

  lemma ReachesThroughLink(g: Graph, x: Cid, l: Cid, y: Cid)
    requires l in Links(g, x) && Reaches(g, l, y)
    ensures Reaches(g, x, y)
  {
    var p :| IsPathBetween(g, p, l, y);
    PrependNode(g, x, p);
    assert IsPathBetween(g, [x] + p, x, y);
  }

  lemma {:induction false} AppendLink(g: Graph, p: seq<Cid>, l: Cid)
    requires IsPath(g, p) && l in Links(g, p[|p| - 1])
    ensures IsPath(g, p + [l])
  {
    if |p| == 1 {
      assert (p + [l])[1..] == [l];
    } else {
      AppendLink(g, p[1..], l);
      assert (p + [l])[1..] == p[1..] + [l];
    }
  }

  lemma ReachesNext(g: Graph, x: Cid, y: Cid, l: Cid)
    requires Reaches(g, x, y) && l in Links(g, y)
    ensures Reaches(g, x, l)
  {
    var p :| IsPathBetween(g, p, x, y);
    AppendLink(g, p, l);
    assert IsPathBetween(g, p + [l], x, l);
  }

  /** A set that holds `x` and every link of its members holds all that `x` reaches. */
  lemma {:induction false} ClosedHoldsReachable(g: Graph, s: set<Cid>, p: seq<Cid>)
    requires forall x :: x in s ==> Links(g, x) <= s
    requires IsPath(g, p) && p[0] in s
    ensures p[|p| - 1] in s
  {
    if |p| > 1 {
      ClosedHoldsReachable(g, s, p[1..]);
    }
  }

  // ----- The finite set reachable from a worklist, as a measure -----

  ghost function Nodes(g: Graph): set<Cid> {
    g.Keys + set x, l | x in g && l in g[x] :: l
  }

  ghost function ReachableFrom(g: Graph, s: set<Cid>): set<Cid> {
    set y | y in s + Nodes(g) && exists x :: x in s && Reaches(g, x, y)
  }

  lemma {:induction false} PathEndsInNodes(g: Graph, p: seq<Cid>)
    requires IsPath(g, p) && |p| > 1
    ensures p[|p| - 1] in Nodes(g)
  {
    if |p| > 2 {
      PathEndsInNodes(g, p[1..]);
    }
  }

  /** The bound on `y` in `ReachableFrom` only makes the set finite. */
  lemma ReachableFromExact(g: Graph, s: set<Cid>, y: Cid)
    ensures y in ReachableFrom(g, s) <==> exists x :: x in s && Reaches(g, x, y)
  {
    forall x | x in s && Reaches(g, x, y)
      ensures y in s + Nodes(g)
    {
      var p :| IsPathBetween(g, p, x, y);
      if |p| > 1 {
        PathEndsInNodes(g, p);
      }
    }
  }

  lemma ReachableFromMonotone(g: Graph, a: set<Cid>, b: set<Cid>)
    requires a <= b
    ensures |ReachableFrom(g, a)| <= |ReachableFrom(g, b)|
  {
    SubsetSize(ReachableFrom(g, a), ReachableFrom(g, b));
  }

  lemma PrependNode(g: Graph, k: Cid, p: seq<Cid>)
    requires IsPath(g, p) && p[0] in Links(g, k)
    ensures IsPath(g, [k] + p)
  {
    assert ([k] + p)[1..] == p;
  }

  lemma LinksDoNotReachBack(g: Graph, k: Cid, l: Cid)
    requires Acyclic(g) && l in Links(g, k)
    ensures !Reaches(g, l, k)
  {
    if Reaches(g, l, k) {
      var p :| IsPathBetween(g, p, l, k);
      PrependNode(g, k, p);
      assert false;
    }
  }

  /** Following the links of one worklist entry loses at least the entry itself. */
  lemma LinksReachLess(g: Graph, s: set<Cid>, k: Cid)
    requires Acyclic(g) && k in s
    ensures |ReachableFrom(g, Links(g, k))| < |ReachableFrom(g, s)|
  {
    var small, big := ReachableFrom(g, Links(g, k)), ReachableFrom(g, s);
    forall y | y in small
      ensures y in big && y != k
    {
      var l :| l in Links(g, k) && Reaches(g, l, y);
      LinksDoNotReachBack(g, k, l);
      ReachesThroughLink(g, k, l, y);
      ReachableFromExact(g, s, y);
    }
    ReachesSelf(g, k);
    ReachableFromExact(g, s, k);
    SubsetSize(small, big);
  }

  // ----- Counting the paths out of a worklist -----

  /** What one visit of `x` adds: to the total, or to the visits of one node. */
  function Tally(of: Option<Cid>, x: Cid): nat {
    if of == None || of == Some(x) then 1 else 0
  }

  function Visits(of: Option<Cid>, s: seq<Cid>): nat {
    match of
    case None => |s|
    case Some(x) => multiset(s)[x]
  }

  ghost function Pick(s: set<Cid>): Cid
    requires s != {}
    ensures Pick(s) in s
  {
    var k :| k in s; k
  }

  /**
    The number of paths that start in `s`, all of them or those that end in one
    node: each entry counts itself and then the paths out of its distinct links.
   */
  ghost function Weight(g: Graph, of: Option<Cid>, s: set<Cid>): nat
    requires Acyclic(g)
    decreases |ReachableFrom(g, s)|, |s|
  {
    if s == {} then 0 else
      var k := Pick(s);
      LinksReachLess(g, s, k);
      ReachableFromMonotone(g, s - {k}, s);
      Tally(of, k) + Weight(g, of, Links(g, k)) + Weight(g, of, s - {k})
  }

  /** Any entry, not only the picked one, can be split off. */
  lemma {:induction false} WeightSplit(g: Graph, of: Option<Cid>, s: set<Cid>, k: Cid)
    requires Acyclic(g) && k in s
    ensures Weight(g, of, s) == Tally(of, k) + Weight(g, of, Links(g, k)) + Weight(g, of, s - {k})
    decreases |s|
  {
    var y := Pick(s);
    if y != k {
      WeightSplit(g, of, s - {y}, k);
      WeightSplit(g, of, s - {k}, y);
      assert s - {y} - {k} == s - {k} - {y};
    }
  }

  lemma {:induction false} WeightUnion(g: Graph, of: Option<Cid>, a: set<Cid>, b: set<Cid>)
    requires Acyclic(g)
    ensures Weight(g, of, a + b) <= Weight(g, of, a) + Weight(g, of, b)
    decreases |a|
  {
    if a == {} {
      assert a + b == b;
    } else {
      var k :| k in a;
      var rest := a - {k};
      assert a + b == (rest + b) + {k};
      WeightInsert(g, of, rest + b, k);
      WeightUnion(g, of, rest, b);
      WeightSplit(g, of, a, k);
    }
  }

  lemma WeightInsert(g: Graph, of: Option<Cid>, s: set<Cid>, k: Cid)
    requires Acyclic(g)
    ensures Weight(g, of, s + {k}) <= Tally(of, k) + Weight(g, of, Links(g, k)) + Weight(g, of, s)
  {
    if k in s {
      assert s + {k} == s;
    } else {
      WeightSplit(g, of, s + {k}, k);
      assert s + {k} - {k} == s;
    }
  }

  /** Processing one entry never raises the weight of what is still owed. */
  lemma WeightStep(g: Graph, of: Option<Cid>, m: set<Cid>, k: Cid)
    requires Acyclic(g) && k in m
    ensures Weight(g, of, m - {k} + Links(g, k)) + Tally(of, k) <= Weight(g, of, m)
  {
    WeightSplit(g, of, m, k);
    WeightUnion(g, of, m - {k}, Links(g, k));
  }

  // ----- The weight really counts paths -----

  /** All paths from a member of `s` to `y`. */
  ghost function PathsFrom(g: Graph, s: set<Cid>, y: Cid): set<seq<Cid>>
    requires Acyclic(g)
    decreases |ReachableFrom(g, s)|, |s|
  {
    if s == {} then {} else
      var k := Pick(s);
      LinksReachLess(g, s, k);
      ReachableFromMonotone(g, s - {k}, s);
      (if k == y then {[k]} else {}) + Prefixed(k, PathsFrom(g, Links(g, k), y)) + PathsFrom(g, s - {k}, y)
  }

  function Prefixed(k: Cid, ps: set<seq<Cid>>): set<seq<Cid>> {
    set p | p in ps :: [k] + p
  }

  lemma PrefixedMember(k: Cid, ps: set<seq<Cid>>, p: seq<Cid>)
    ensures p in Prefixed(k, ps) <==> |p| > 0 && p[0] == k && p[1..] in ps
  {
    if |p| > 0 && p[0] == k {
      assert p == [k] + p[1..];
    }
    forall q | q in ps
      ensures ([k] + q)[1..] == q
    {
    }
  }

  /** Membership, by the first node of the path. */
  lemma PathsFromUnfold(g: Graph, s: set<Cid>, y: Cid, p: seq<Cid>)
    requires Acyclic(g) && s != {}
    ensures var k := Pick(s);
            p in PathsFrom(g, s, y) <==>
            || (k == y && p == [k])
            || (|p| > 0 && p[0] == k && p[1..] in PathsFrom(g, Links(g, k), y))
            || p in PathsFrom(g, s - {k}, y)
  {
    var k := Pick(s);
    PrefixedMember(k, PathsFrom(g, Links(g, k), y), p);
  }

  lemma PathFrom(g: Graph, k: Cid, y: Cid, p: seq<Cid>)
    requires |p| > 0 && p[0] == k
    ensures IsPath(g, p) && p[|p| - 1] == y <==>
            || (k == y && p == [k])
            || (|p| > 1 && p[1] in Links(g, k) && IsPath(g, p[1..]) && p[1..][|p| - 2] == y)
  {
  }

  lemma {:induction false} PathsFromExact(g: Graph, s: set<Cid>, y: Cid, p: seq<Cid>)
    requires Acyclic(g)
    ensures p in PathsFrom(g, s, y) <==> IsPath(g, p) && p[0] in s && p[|p| - 1] == y
    decreases |ReachableFrom(g, s)|, |s|
  {
    if s != {} {
      var k := Pick(s);
      LinksReachLess(g, s, k);
      ReachableFromMonotone(g, s - {k}, s);
      PathsFromExact(g, s - {k}, y, p);
      PathsFromUnfold(g, s, y, p);
      if |p| > 0 && p[0] == k {
        PathsFromExact(g, Links(g, k), y, p[1..]);
        PathFrom(g, k, y, p);
      }
    }
  }

  lemma {:induction false} PrefixedSize(k: Cid, ps: set<seq<Cid>>)
    ensures |Prefixed(k, ps)| == |ps|
  {
    if ps != {} {
      var q :| q in ps;
      PrefixedSize(k, ps - {q});
      PrefixedMember(k, ps - {q}, [k] + q);
      assert Prefixed(k, ps) == Prefixed(k, ps - {q}) + {[k] + q};
    }
  }

  /** The three parts of `PathsFrom` share no path. */
  lemma PathsSplitDisjointly(g: Graph, s: set<Cid>, k: Cid, y: Cid)
    requires Acyclic(g) && k in s
    ensures [k] !in Prefixed(k, PathsFrom(g, Links(g, k), y))
    ensures PathsFrom(g, s - {k}, y) !! {[k]} + Prefixed(k, PathsFrom(g, Links(g, k), y))
  {
    var below := PathsFrom(g, Links(g, k), y);
    PathsFromExact(g, Links(g, k), y, []);
    PrefixedMember(k, below, [k]);
    forall p | p in PathsFrom(g, s - {k}, y)
      ensures p !in {[k]} + Prefixed(k, below)
    {
      PathsFromExact(g, s - {k}, y, p);
      PrefixedMember(k, below, p);
    }
  }

  lemma ThreePartsSize<T>(a: set<T>, b: set<T>, c: set<T>)
    requires a !! b && a + b !! c
    ensures |a + b + c| == |a| + |b| + |c|
  {
  }

  lemma PathsFromSize(g: Graph, s: set<Cid>, y: Cid)
    requires Acyclic(g) && s != {}
    ensures var k := Pick(s);
            |PathsFrom(g, s, y)| == Tally(Some(y), k) + |PathsFrom(g, Links(g, k), y)| + |PathsFrom(g, s - {k}, y)|
  {
    var k := Pick(s);
    var below, rest := PathsFrom(g, Links(g, k), y), PathsFrom(g, s - {k}, y);
    PathsSplitDisjointly(g, s, k, y);
    PrefixedSize(k, below);
    var here: set<seq<Cid>> := if k == y then {[k]} else {};
    ThreePartsSize(here, Prefixed(k, below), rest);
  }

  /** The weight towards `y` is the number of paths to `y`. */
  lemma {:induction false} WeightCountsPaths(g: Graph, s: set<Cid>, y: Cid)
    requires Acyclic(g)
    ensures Weight(g, Some(y), s) == |PathsFrom(g, s, y)|
    decreases |ReachableFrom(g, s)|, |s|
  {
    if s != {} {
      var k := Pick(s);
      LinksReachLess(g, s, k);
      ReachableFromMonotone(g, s - {k}, s);
      WeightCountsPaths(g, Links(g, k), y);
      WeightCountsPaths(g, s - {k}, y);
      PathsFromSize(g, s, y);
    }
  }
}
