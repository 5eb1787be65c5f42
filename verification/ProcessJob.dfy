/**
  One crawl job from start to finish: whether to crawl at all, what to record, what
  to pin and unpin, and the deferred announcements and update that every exit runs.
 */
module ProcessJob {
  import opened Base
  import opened Dag
  import opened CidTable
  import opened Unpinning
  import FetchGraph
  import CidHistory

  type Data = string

  datatype Record = Record(value: string, eol: Option<Time>)

  datatype Job = Job(peer: PeerId, record: Option<Record>, expiration: Time, fetchNewRecord: bool, pinRecord: bool)

  /** The answer to resolving one named link of the root node. */
  datatype Link = LinkTo(cid: Cid) | NoLink | LinkError

  /** An entry of a listing index, and the listing if it could be loaded. */
  datatype Entry = Entry(cid: string, loaded: Option<Data>)

  /** What the configuration fixes; `nodes` is the number of IPFS nodes. */
  datatype Config = Config(cacheData: bool, pinFiles: bool, nodes: nat)

  /**
    Everything the network, the store and the codecs answer during one job.  The
    fields named `...Api` and `lookup` say whether a lookup of a node's API
    succeeds: for the fetches of the root, the profile and the listing index, for
    the `n`-th fetch of the walk, after the transaction, and for each entry of the
    unpin list on each node.  `removes` is the answer of a node asked to unpin.
   */
  datatype World = World(
    fetchedRecord: Option<Record>,
    decode: string -> Option<Cid>,
    graph: Graph,
    rootApi: bool,
    rootDelivered: bool,
    profileLink: Link,
    listingsLink: Link,
    profileApi: bool,
    profile: Option<Data>,
    indexApi: bool,
    listingIndex: Option<seq<Entry>>,
    walkApi: (nat, Cid) -> bool,
    delivers: (nat, Cid) -> bool,
    db: Faults,
    coreApi: bool,
    lookup: (nat, nat) -> bool,
    removes: (nat, nat) -> bool)

  datatype Object = Object(data: Data, expiration: Time)

  datatype Event =
    | Pin(cid: Cid)
    | Unpin(request: Request)
    | Emit(object: Object)
    | PutRecord(record: Record)
    | Crawled(peer: PeerId, pinned: bool)

  // ----- Whether the job crawls -----

  predicate WantsFreshRecord(job: Job) {
    job.fetchNewRecord || job.record == None
  }

  /** A record was fetched and differs in value from the one at hand. */
  predicate GotFreshRecord(job: Job, w: World) {
    w.fetchedRecord.Some? && (job.record.Some? ==> job.record.value.value != w.fetchedRecord.value.value)
  }

  /** The record the job ends up holding. */
  function RecordInUse(job: Job, w: World): Option<Record> {
    if WantsFreshRecord(job) && GotFreshRecord(job, w) then w.fetchedRecord else job.record
  }

  /** The job gets as far as fetching the root. */
  predicate AsksForRoot(job: Job, w: World) {
    && (WantsFreshRecord(job) ==> GotFreshRecord(job, w) && w.fetchedRecord.value.eol.Some?)
    && RecordInUse(job, w).Some?
    && w.decode(RecordInUse(job, w).value.value).Some?
  }

  predicate Crawls(job: Job, w: World) {
    && AsksForRoot(job, w) && w.rootApi && w.rootDelivered
    && !w.profileLink.LinkError? && !w.listingsLink.LinkError?
  }

  /** A `dagGet` or `cat` before the walk fails its API lookup, and so never returns. */
  predicate HangsEarly(job: Job, w: World) {
    || (AsksForRoot(job, w) && !w.rootApi)
    || (Crawls(job, w) && w.profileLink.LinkTo? && !w.profileApi)
    || (Crawls(job, w) && w.listingsLink.LinkTo? && !w.indexApi)
  }

  function RootOf(job: Job, w: World): Cid
    requires Crawls(job, w)
  {
    w.decode(RecordInUse(job, w).value.value).value
  }

  function ExpirationOf(job: Job, w: World): Time
    requires Crawls(job, w)
  {
    if WantsFreshRecord(job) then w.fetchedRecord.value.eol.value else job.expiration
  }

  // ----- What the job finds -----

  /** The entries of the listing index, when it was there and could be read. */
  function Entries(w: World): seq<Entry> {
    if w.listingsLink.LinkTo? && w.listingIndex.Some? then w.listingIndex.value else []
  }

  function Profiles(w: World, expiration: Time): seq<Object> {
    if w.profileLink.LinkTo? && w.profile.Some? then [Object(w.profile.value, expiration)] else []
  }

  /** The listings whose CID decodes and which could be loaded, in index order. */
  function Listings(w: World, entries: seq<Entry>, expiration: Time): seq<Object> {
    if entries == [] then [] else
      var e := entries[|entries| - 1];
      Listings(w, entries[..|entries| - 1], expiration) +
      if w.decode(e.cid).Some? && e.loaded.Some? then [Object(e.loaded.value, expiration)] else []
  }

  function Found(job: Job, w: World): seq<Object> {
    if !Crawls(job, w) then [] else
      Profiles(w, ExpirationOf(job, w)) + Listings(w, Entries(w), ExpirationOf(job, w))
  }

  function LinkCids(l: Link): set<Cid> {
    if l.LinkTo? then {l.cid} else {}
  }

  /** What must be recorded even if no walk was made or the walk failed. */
  function Required(job: Job, w: World): set<Cid>
    requires Crawls(job, w)
  {
    {RootOf(job, w)} + LinkCids(w.profileLink) + LinkCids(w.listingsLink) +
    set e | e in Entries(w) && w.decode(e.cid).Some? :: w.decode(e.cid).value
  }

  // ----- The order of effects -----

  /** The nodes and what they answer to the unpins of this job. */
  function NodesOf(config: Config, w: World): Nodes {
    Nodes(config.nodes, w.lookup, w.removes)
  }

  function AsEvents(asked: seq<Request>): seq<Event> {
    seq(|asked|, i requires 0 <= i < |asked| => Unpin(asked[i]))
  }

  lemma AsEventsExact(asked: seq<Request>, e: Event)
    ensures e in AsEvents(asked) <==> e.Unpin? && e.request in asked
  {
    if e.Unpin? && e.request in asked {
      var i :| 0 <= i < |asked| && asked[i] == e.request;
      assert AsEvents(asked)[i] == e;
    }
  }

  /** Deferred announcements run last registered first. */
  function Announcements(found: seq<Object>): seq<Event> {
    seq(|found|, i requires 0 <= i < |found| => Emit(found[|found| - 1 - i]))
  }

  function Finish(job: Job, record: Option<Record>): seq<Event> {
    (if job.pinRecord && record.Some? then [PutRecord(record.value)] else []) + [Crawled(job.peer, job.pinRecord)]
  }

  /** How a job went: it hung for good, or how far the database half came before it returned. */
  datatype Course = Hung | NotReached | RolledBack(graph: seq<Cid>) | Committed(graph: seq<Cid>, toUnpin: seq<Cid>)

  function Pins(config: Config, root: Cid): seq<Event> {
    if config.pinFiles then [Pin(root)] else []
  }

  function Work(job: Job, w: World, config: Config, r: Course): seq<Event>
    requires r.Committed? ==> Crawls(job, w)
  {
    if r.Committed? && w.coreApi then
      Pins(config, RootOf(job, w)) + AsEvents(Requests(NodesOf(config, w), r.toUnpin))
    else []
  }

  /** A fetch of the walk needs the API and then the block. */
  function WalkDelivers(w: World): (nat, Cid) -> bool {
    (n: nat, x: Cid) => w.walkApi(n, x) && w.delivers(n, x)
  }

  /** A walk that the job can make to its end. */
  predicate IsJobWalk(job: Job, w: World, ret: seq<Cid>)
    requires Crawls(job, w)
  {
    FetchGraph.WholeWalk(w.graph, RootOf(job, w), WalkDelivers(w), ret)
  }

  /** Its last fetch fails its API lookup, and so never returns; all fetches before have returned. */
  predicate HangsAtEnd(w: World, ret: seq<Cid>) {
    |ret| > 0 && !w.walkApi(|ret| - 1, ret[|ret| - 1])
  }

  ghost predicate WalkCanHang(job: Job, w: World)
    requires Crawls(job, w)
  {
    exists ret :: IsJobWalk(job, w, ret) && HangsAtEnd(w, ret)
  }

  /** The graph begins with a walk that returned. */
  ghost predicate BeginsWithWalk(job: Job, w: World, graph: seq<Cid>)
    requires Crawls(job, w)
  {
    exists ret :: ret <= graph && IsJobWalk(job, w, ret) && !HangsAtEnd(w, ret)
  }

  /** A walk that returned got the root's API at its first fetch. */
  lemma ReturnedPastRoot(job: Job, w: World, graph: seq<Cid>)
    requires Crawls(job, w) && BeginsWithWalk(job, w, graph)
    ensures w.walkApi(0, RootOf(job, w))
  {
    var ret :| ret <= graph && IsJobWalk(job, w, ret) && !HangsAtEnd(w, ret);
    FetchGraph.WalkBeginsAtRoot(w.graph, RootOf(job, w), ret);
    if |ret| > 1 {
      assert FetchGraph.Fetched(w.graph, WalkDelivers(w), 0, ret[0]);
    }
  }

  ghost predicate WalkSucceeds(job: Job, w: World)
    requires Crawls(job, w)
  {
    forall n: nat, x :: Reaches(w.graph, RootOf(job, w), x) ==> FetchGraph.Fetched(w.graph, WalkDelivers(w), n, x)
  }

  /** What the committed graph holds: the required CIDs, and nothing the root does not reach beyond them. */
  ghost predicate Records(job: Job, w: World, cacheData: bool, graph: seq<Cid>)
    requires Crawls(job, w)
  {
    && Required(job, w) <= Elements(graph)
    && (forall x :: x in graph ==> x in Required(job, w) || (cacheData && Reaches(w.graph, RootOf(job, w), x)))
    && (cacheData && WalkSucceeds(job, w) ==> forall x :: Reaches(w.graph, RootOf(job, w), x) ==> x in graph)
    && (cacheData ==> BeginsWithWalk(job, w, graph))
  }

  lemma GraphRecords(job: Job, w: World, cacheData: bool, walked: seq<Cid>, newListings: seq<string>, graph: seq<Cid>)
    requires Crawls(job, w)
    requires forall s :: s in newListings <==> w.decode(s).Some? && exists e :: e in Entries(w) && e.cid == s
    requires forall x :: x in graph <==>
               || x in Elements(walked) + {RootOf(job, w)} + LinkCids(w.profileLink) + LinkCids(w.listingsLink)
               || exists s :: s in newListings && w.decode(s) == Some(x)
    requires forall x :: x in walked ==> cacheData && Reaches(w.graph, RootOf(job, w), x)
    requires cacheData && WalkSucceeds(job, w) ==> forall x :: Reaches(w.graph, RootOf(job, w), x) ==> x in walked
    requires walked <= graph && (cacheData ==> IsJobWalk(job, w, walked) && !HangsAtEnd(w, walked))
    ensures Records(job, w, cacheData, graph)
  {
    forall x
      ensures (exists s :: s in newListings && w.decode(s) == Some(x)) <==>
              exists e :: e in Entries(w) && w.decode(e.cid) == Some(x)
    {
      if e :| e in Entries(w) && w.decode(e.cid) == Some(x) {
        assert e.cid in newListings;
      }
    }
  }

  /** What the job did to the table, and how it went. */
  ghost predicate Effect(job: Job, w: World, cacheData: bool, before: Rows, after: Rows, r: Course) {
    match r
    case Hung => after == before && (HangsEarly(job, w) || (Crawls(job, w) && cacheData && WalkCanHang(job, w)))
    case NotReached => !HangsEarly(job, w) && !Crawls(job, w) && after == before
    case RolledBack(graph) =>
      && !HangsEarly(job, w) && Crawls(job, w) && Records(job, w, cacheData, graph)
      && TransactionEffect(before, after, job.peer, graph, w.db, false, [])
    case Committed(graph, toUnpin) =>
      && !HangsEarly(job, w) && Crawls(job, w) && Records(job, w, cacheData, graph)
      && TransactionEffect(before, after, job.peer, graph, w.db, true, toUnpin)
  }

  /**
    Which walks hang: those that some choices of the ranges list, with every fetch but
    the last successful, and the API lookup of the last one failing.
   */
  lemma WalkHangsExactly(job: Job, w: World)
    requires Crawls(job, w)
    ensures WalkCanHang(job, w) <==> exists ret ::
              && FetchGraph.CanBeListed(w.graph, RootOf(job, w), ret) && HangsAtEnd(w, ret)
              && FetchGraph.AllFetched(w.graph, WalkDelivers(w), ret, |ret| - 1)
  {
    if WalkCanHang(job, w) {
      var ret :| IsJobWalk(job, w, ret) && HangsAtEnd(w, ret);
      FetchGraph.ListedExactly(w.graph, RootOf(job, w), ret);
    }
    if ret :| && FetchGraph.CanBeListed(w.graph, RootOf(job, w), ret) && HangsAtEnd(w, ret)
              && FetchGraph.AllFetched(w.graph, WalkDelivers(w), ret, |ret| - 1) {
      FetchGraph.ListedExactly(w.graph, RootOf(job, w), ret);
      assert IsJobWalk(job, w, ret);
    }
  }

  /** A job hangs only if it can, and if every walk of it hangs it does. */
  lemma HangCondition(job: Job, w: World, cacheData: bool, before: Rows, after: Rows, r: Course)
    requires Effect(job, w, cacheData, before, after, r)
    ensures r == Hung ==> HangsEarly(job, w) || (Crawls(job, w) && cacheData && WalkCanHang(job, w))
    ensures HangsEarly(job, w) ==> r == Hung
    ensures Crawls(job, w) && cacheData && (forall ret :: IsJobWalk(job, w, ret) ==> HangsAtEnd(w, ret)) ==> r == Hung
  {
  }

  /** The events of one whole job. A job that hangs never reaches its deferred calls. */
  function JobEvents(job: Job, w: World, config: Config, r: Course): seq<Event>
    requires r.Committed? ==> Crawls(job, w)
  {
    if r == Hung then [] else
      Work(job, w, config, r) + Announcements(Found(job, w)) + Finish(job, RecordInUse(job, w))
  }

  // ----- The events, segment by segment -----

  lemma WorkKinds(job: Job, w: World, config: Config, r: Course, e: Event)
    requires (r.Committed? ==> Crawls(job, w)) && e in Work(job, w, config, r)
    ensures e.Pin? || e.Unpin?
  {
    if !e.Pin? {
      AsEventsExact(Requests(NodesOf(config, w), r.toUnpin), e);
    }
  }

  lemma FinishKinds(job: Job, record: Option<Record>, i: nat)
    requires i < |Finish(job, record)|
    ensures var f := Finish(job, record);
            if i == |f| - 1 then f[i] == Crawled(job.peer, job.pinRecord) else f[i].PutRecord?
  {
  }

  lemma InSegment<T>(a: seq<T>, b: seq<T>, c: seq<T>, i: nat)
    requires i < |a + b + c|
    ensures (a + b + c)[i] == if i < |a| then a[i] else if i < |a| + |b| then b[i - |a|] else c[i - |a| - |b|]
  {
  }

  /** Which events stand where in a job that returns. */
  lemma EventKind(job: Job, w: World, config: Config, r: Course, i: nat)
    requires r != Hung && (r.Committed? ==> Crawls(job, w)) && i < |JobEvents(job, w, config, r)|
    ensures var t, n, m := JobEvents(job, w, config, r), |Work(job, w, config, r)|, |Found(job, w)|;
            && n + m < |t|
            && (i < n ==> t[i].Pin? || t[i].Unpin?)
            && (n <= i < n + m ==> t[i].Emit?)
            && (n + m <= i < |t| - 1 ==> t[i].PutRecord?)
            && (i == |t| - 1 ==> t[i] == Crawled(job.peer, job.pinRecord))
  {
    var work, said, finish := Work(job, w, config, r), Announcements(Found(job, w)), Finish(job, RecordInUse(job, w));
    InSegment(work, said, finish, i);
    if i < |work| {
      WorkKinds(job, w, config, r, work[i]);
    } else if i >= |work| + |said| {
      FinishKinds(job, RecordInUse(job, w), i - |work| - |said|);
    }
  }

  /**
    On every exit of a job that returns the last crawl time is updated exactly once
    and last, and nothing is pinned or unpinned after the first announcement or the
    record put.
   */
  lemma EventsInOrder(job: Job, w: World, config: Config, r: Course, i: nat, j: nat)
    requires r != Hung && (r.Committed? ==> Crawls(job, w))
    requires i < |JobEvents(job, w, config, r)| && j < |JobEvents(job, w, config, r)|
    ensures var t := JobEvents(job, w, config, r);
            && (t[i].Crawled? <==> i == |t| - 1)
            && (t[|t| - 1] == Crawled(job.peer, job.pinRecord))
            && ((t[i].Pin? || t[i].Unpin?) && (t[j].Emit? || t[j].PutRecord?) ==> i < j)
            && (t[i].Emit? && t[j].PutRecord? ==> i < j)
  {
    EventKind(job, w, config, r, i);
    EventKind(job, w, config, r, j);
    EventKind(job, w, config, r, |JobEvents(job, w, config, r)| - 1);
  }

  /**
    What a job really unpins.  A node is asked to unpin a CID if and only if the CID
    lost its last reference at the job's commit, the API could be had after the
    commit, and for some entry of the CID on the unpin list the lookups for that node
    and all nodes before it succeeded.  What the nodes answer changes nothing.
   */
  lemma JobUnpins(job: Job, w: World, config: Config, before: Rows, after: Rows, r: Course, c: Cid, node: nat,
                  removed: bool)
    requires CidHistory.Outcome(before, after, AttemptOf(job, r)) && (r.Committed? ==> Crawls(job, w))
    ensures Unpin(Request(c, node, removed)) in JobEvents(job, w, config, r) <==>
            && c in Referenced(before) && c !in Referenced(after) && w.coreApi
            && r.Committed? && NodeAsked(NodesOf(config, w), r.toUnpin, c, node, removed)
  {
    UnpinsInEvents(job, w, config, r, Unpin(Request(c, node, removed)));
    if r.Committed? {
      UnpinnedAtLastReference(before, after, job.peer, r.graph, r.toUnpin);
      RequestsExact(NodesOf(config, w), r.toUnpin, Request(c, node, removed));
      assert c in Elements(r.toUnpin) <==> c in r.toUnpin;
    }
  }

  lemma UnpinsInEvents(job: Job, w: World, config: Config, r: Course, e: Event)
    requires (r.Committed? ==> Crawls(job, w)) && e.Unpin?
    ensures e in JobEvents(job, w, config, r) <==>
            r.Committed? && w.coreApi && e.request in Requests(NodesOf(config, w), r.toUnpin)
  {
    assert e !in Announcements(Found(job, w)) && e !in Finish(job, RecordInUse(job, w));
    if r.Committed? {
      AsEventsExact(Requests(NodesOf(config, w), r.toUnpin), e);
    }
  }

  /** With every lookup successful, exactly the CIDs that lost their last reference are unpinned, on every node. */
  lemma AllNodesUnpin(job: Job, w: World, config: Config, before: Rows, after: Rows, r: Course, c: Cid, node: nat)
    requires CidHistory.Outcome(before, after, AttemptOf(job, r)) && (r.Committed? ==> Crawls(job, w))
    requires w.coreApi && (forall i: nat, m: nat :: w.lookup(i, m)) && node < config.nodes
    ensures (exists removed :: Unpin(Request(c, node, removed)) in JobEvents(job, w, config, r)) <==>
            c in Referenced(before) && c !in Referenced(after)
  {
    UnpinsInEvents(job, w, config, r, Unpin(Request(c, node, true)));
    UnpinsInEvents(job, w, config, r, Unpin(Request(c, node, false)));
    if r.Committed? {
      UnpinnedAtLastReference(before, after, job.peer, r.graph, r.toUnpin);
      AllNodesAsked(NodesOf(config, w), r.toUnpin, c, node);
      assert c in Elements(r.toUnpin) <==> c in r.toUnpin;
      if removed :| Request(c, node, removed) in Requests(NodesOf(config, w), r.toUnpin) {
        assert Unpin(Request(c, node, removed)) in JobEvents(job, w, config, r);
      }
    }
  }

  /** A job whose peer goes from `c` to `d`, and the answers it gets: the record at hand, no links, one CID. */
  function MovingJob(p: PeerId): Job {
    Job(p, Some(Record("", None)), 0, false, false)
  }

  function MovingWorld(d: Cid, coreApi: bool): World {
    World(None, s => Some(d), map[], true, true, NoLink, NoLink, true, None, true, None,
          (n: nat, x: Cid) => true, (n: nat, x: Cid) => true,
          Faults(true, n => true, n => true, n => true, true),
          coreApi, (i: nat, m: nat) => false, (i: nat, m: nat) => true)
  }

  /**
    The unpin can be lost: the job commits and takes the last reference to `c` away,
    the API is not to be had, at once or node by node, and nobody is asked to unpin.
   */
  lemma UnpinIsLost(p: PeerId, c: Cid, d: Cid, config: Config, coreApi: bool, node: nat, removed: bool)
    requires c != d
    ensures var job, w, r := MovingJob(p), MovingWorld(d, coreApi), Committed([d], [c]);
            && Effect(job, w, false, [Row(c, p)], [Row(d, p)], r)
            && c in Referenced([Row(c, p)]) && c !in Referenced([Row(d, p)])
            && Unpin(Request(c, node, removed)) !in JobEvents(job, w, config, r)
  {
    var job, w, r := MovingJob(p), MovingWorld(d, coreApi), Committed([d], [c]);
    var before, after := [Row(c, p)], [Row(d, p)];
    MovingCommits(p, c, d, w.db);
    assert Crawls(job, w) && RootOf(job, w) == d && Required(job, w) == {d};
    assert Row(c, p).cid == c;
    UnpinsInEvents(job, w, config, r, Unpin(Request(c, node, removed)));
    NoNodeAsked(NodesOf(config, w), [c], c, node);
  }

  lemma MovingCommits(p: PeerId, c: Cid, d: Cid, db: Faults)
    requires c != d && db.load && db.commit
    requires forall n :: db.saves(n) && db.deletes(n) && db.queries(n)
    ensures TransactionEffect([Row(c, p)], [Row(d, p)], p, [d], db, true, [c])
  {
    var before, after := [Row(c, p)], [Row(d, p)];
    assert RowsOf(before, p) == [Row(c, p)];
    assert forall x, q :: Count(before, x, q) == if x == c && q == p then 1 else 0;
    assert forall x, q :: Count(after, x, q) == if x == d && q == p then 1 else 0;
  }

  function AttemptOf(job: Job, r: Course): CidHistory.Attempt {
    match r
    case Committed(graph, toUnpin) => CidHistory.Attempt(job.peer, graph, true, toUnpin)
    case _ => CidHistory.Attempt(job.peer, [], false, [])
  }

  /** Every job is an attempt of a history, so what holds of histories holds of runs of jobs. */
  lemma JobIsAttempt(job: Job, w: World, cacheData: bool, before: Rows, after: Rows, r: Course)
    requires Effect(job, w, cacheData, before, after, r)
    requires w.db.load && forall n :: w.db.deletes(n)
    ensures CidHistory.Outcome(before, after, AttemptOf(job, r))
  {
    if r.Committed? {
      MergedIsReconciled(before, after, job.peer, r.graph, w.db.deletes);
    }
  }

  /** Every run of jobs, on one table from empty, is a history. */
  lemma JobsFormHistory(tables: seq<Rows>, jobs: seq<Job>, worlds: seq<World>, cacheData: bool, rs: seq<Course>)
    requires |tables| == |jobs| + 1 && |worlds| == |rs| == |jobs| && tables[0] == []
    requires forall i | 0 <= i < |jobs| ::
               && Effect(jobs[i], worlds[i], cacheData, tables[i], tables[i + 1], rs[i])
               && worlds[i].db.load && forall n :: worlds[i].db.deletes(n)
    ensures CidHistory.IsHistory(tables, seq(|jobs|, i requires 0 <= i < |jobs| => AttemptOf(jobs[i], rs[i])))
  {
    forall i | 0 <= i < |jobs|
      ensures CidHistory.Outcome(tables[i], tables[i + 1], AttemptOf(jobs[i], rs[i]))
    {
      JobIsAttempt(jobs[i], worlds[i], cacheData, tables[i], tables[i + 1], rs[i]);
    }
  }

  /**
    Whenever a job commits, the peer's live CIDs include the root, both links and
    every decodable listing, even if the walk, a listing, or the load failed.
   */
  lemma RequiredIsRecorded(job: Job, w: World, cacheData: bool, before: Rows, after: Rows, r: Course)
    requires Effect(job, w, cacheData, before, after, r) && r.Committed?
    ensures Required(job, w) <= Live(after, job.peer)
  {
    MergedLive(before, after, job.peer, r.graph, Loaded(before, job.peer, w.db), w.db.deletes, job.peer);
  }

  lemma TakeFirst<T>(s: seq<T>, i: nat)
    requires i < |s|
    ensures s[..i + 1][..i] == s[..i] && s[..i + 1][i] == s[i]
  {
  }

  lemma Grouped<T>(a: seq<T>, b: seq<T>, c: seq<T>, d: seq<T>)
    ensures a + b + c + d == a + (b + c + d)
  {
  }

  lemma WorkAfter(trace: seq<Event>, job: Job, w: World, config: Config, r: Course)
    requires r.Committed? ==> Crawls(job, w)
    ensures trace + Work(job, w, config, r) ==
            if r.Committed? && w.coreApi then
              trace + Pins(config, RootOf(job, w)) + AsEvents(Requests(NodesOf(config, w), r.toUnpin))
            else trace
  {
  }

  class Crawler {
    const config: Config
    const db: Database
    var trace: seq<Event>

    constructor (config: Config, db: Database)
      ensures this.config == config && this.db == db && trace == []
    {
      this.config, this.db := config, db;
      trace := [];
    }

    /**
      The effects of a job that returns, by whichever exit, are its pins and unpins,
      then the announcements of what it found in reverse order, then the record put
      if asked for, and then, once and last, the update of the last crawl time.  A
      job that hangs has no effect at all, then or later.
     */
    method Process(job: Job, w: World) returns (r: Course)
      requires Acyclic(w.graph)
      modifies this`trace, db`rows
      ensures Effect(job, w, config.cacheData, old(db.rows), db.rows, r)
      ensures trace == old(trace) + JobEvents(job, w, config, r)
    {
      var record, deferred;
      record, deferred, r := Crawl(job, w);
      if r == Hung {
        return;
      }
      Announce(deferred);
      Conclude(job, record);
      Grouped(old(trace), Work(job, w, config, r), Announcements(deferred), Finish(job, record));
    }

    /** The first deferred call, which therefore runs last. */
    method Conclude(job: Job, record: Option<Record>)
      modifies this`trace
      ensures trace == old(trace) + Finish(job, record)
    {
      if job.pinRecord && record != None {
        trace := trace + [PutRecord(record.value)];
      }
      trace := trace + [Crawled(job.peer, job.pinRecord)];
    }

    /** Runs the deferred announcements. */
    method Announce(deferred: seq<Object>)
      modifies this`trace
      ensures trace == old(trace) + Announcements(deferred)
    {
      var i := |deferred|;
      while i > 0
        invariant 0 <= i <= |deferred|
        invariant trace == old(trace) + Announcements(deferred)[..|deferred| - i]
      {
        i := i - 1;
        TakeNext(Announcements(deferred), |deferred| - 1 - i);
        trace := trace + [Emit(deferred[i])];
      }
      TakeAll(Announcements(deferred));
    }

    /** The body of the job, up to the return that starts the deferred calls, if it returns. */
    method Crawl(job: Job, w: World) returns (record: Option<Record>, deferred: seq<Object>, r: Course)
      requires Acyclic(w.graph)
      modifies this`trace, db`rows
      ensures r != Hung ==> record == RecordInUse(job, w) && deferred == Found(job, w)
      ensures Effect(job, w, config.cacheData, old(db.rows), db.rows, r)
      ensures trace == old(trace) + if r == Hung then [] else Work(job, w, config, r)
    {
      var go, hung, expiration, root;
      record, go, hung, expiration, root := Resolve(job, w);
      deferred := [];
      if hung {
        r := Hung;
        return;
      }
      if !go {
        r := NotReached;
        return;
      }
      var newListings;
      newListings, deferred, hung := Discover(w, expiration);
      if hung {
        r := Hung;
        return;
      }
      r := Record(job, w, root, newListings);
      CarryOut(job, w, root, r);
    }

    /** What to record, and the transaction, unless the walk hangs. */
    method Record(job: Job, w: World, root: Cid, newListings: seq<string>) returns (r: Course)
      requires Acyclic(w.graph) && Crawls(job, w) && !HangsEarly(job, w) && root == RootOf(job, w)
      requires forall s :: s in newListings <==> w.decode(s).Some? && exists e :: e in Entries(w) && e.cid == s
      modifies db`rows
      ensures r != NotReached && Effect(job, w, config.cacheData, old(db.rows), db.rows, r)
    {
      var graph, hung := BuildGraph(job, w, root, newListings);
      if hung {
        return Hung;
      }
      var ok, toUnpin := db.Reconcile(job.peer, graph, w.db);
      r := if ok then Committed(graph, toUnpin) else RolledBack(graph);
    }

    /** The early returns: the record to use, its root, and whether to go on or hang. */
    method Resolve(job: Job, w: World)
      returns (record: Option<Record>, go: bool, hung: bool, expiration: Time, root: Cid)
      ensures record == RecordInUse(job, w)
      ensures go <==> Crawls(job, w)
      ensures hung <==> AsksForRoot(job, w) && !w.rootApi
      ensures go ==> expiration == ExpirationOf(job, w) && root == RootOf(job, w)
    {
      record, go, hung, expiration, root := job.record, false, false, job.expiration, 0;
      if job.fetchNewRecord || job.record == None {
        if w.fetchedRecord == None {
          return;
        }
        var rec := w.fetchedRecord.value;
        if job.record != None && rec.value == job.record.value.value {
          return;
        }
        record := Some(rec);
        if rec.eol == None {
          return;
        }
        expiration := rec.eol.value;
      }
      var rootCID := w.decode(record.value.value);
      if rootCID == None {
        return;
      }
      root := rootCID.value;
      if !w.rootApi {
        hung := true;
        return;
      }
      if !w.rootDelivered {
        return;
      }
      if w.profileLink == LinkError {
        return;
      }
      if w.listingsLink == LinkError {
        return;
      }
      go := true;
    }

    /** What follows the transaction: the node's API, the pin, and the unpins. */
    method CarryOut(job: Job, w: World, root: Cid, r: Course)
      requires r.Committed? ==> Crawls(job, w) && root == RootOf(job, w)
      modifies this`trace
      ensures trace == old(trace) + Work(job, w, config, r)
    {
      WorkAfter(trace, job, w, config, r);
      if !r.Committed? {
        return;
      }
      if !w.coreApi {
        return;
      }
      PinRoot(root);
      UnpinAll(w, r.toUnpin);
    }

    method PinRoot(root: Cid)
      modifies this`trace
      ensures trace == old(trace) + Pins(config, root)
    {
      if config.pinFiles {
        trace := trace + [Pin(root)];
      }
    }

    method UnpinAll(w: World, toUnpin: seq<Cid>)
      modifies this`trace
      ensures trace == old(trace) + AsEvents(Requests(NodesOf(config, w), toUnpin))
    {
      var asked := Unpinning.UnpinAll(NodesOf(config, w), toUnpin);
      trace := trace + AsEvents(asked);
    }

    /** Reads the profile and the listings; what is found is deferred for announcement. */
    method Discover(w: World, expiration: Time) returns (newListings: seq<string>, deferred: seq<Object>, hung: bool)
      ensures hung <==> (w.profileLink.LinkTo? && !w.profileApi) || (w.listingsLink.LinkTo? && !w.indexApi)
      ensures !hung ==> deferred == Profiles(w, expiration) + Listings(w, Entries(w), expiration)
      ensures !hung ==> forall s :: s in newListings <==> w.decode(s).Some? && exists e :: e in Entries(w) && e.cid == s
    {
      newListings, deferred, hung := [], [], false;
      if w.profileLink.LinkTo? {
        if !w.profileApi {
          hung := true;
          return;
        }
        if w.profile != None {
          deferred := deferred + [Object(w.profile.value, expiration)];
        }
      }
      if w.listingsLink.LinkTo? && !w.indexApi {
        hung := true;
        return;
      }
      var listings;
      newListings, listings := CrawlListings(w, expiration);
      deferred := deferred + listings;
    }

    /** Goes through the listing index: the CIDs that decode, and the listings that load. */
    method CrawlListings(w: World, expiration: Time) returns (newListings: seq<string>, listings: seq<Object>)
      ensures listings == Listings(w, Entries(w), expiration)
      ensures forall s :: s in newListings <==> w.decode(s).Some? && exists e :: e in Entries(w) && e.cid == s
    {
      newListings, listings := [], [];
      if w.listingsLink.LinkTo? && w.listingIndex != None {
        var index := w.listingIndex.value;
        for i := 0 to |index|
          invariant listings == Listings(w, index[..i], expiration)
          invariant forall s :: s in newListings <==> w.decode(s).Some? && exists j | 0 <= j < i :: index[j].cid == s
        {
          TakeFirst(index, i);
          if w.decode(index[i].cid) == None {
            continue;
          }
          newListings := newListings + [index[i].cid];
          if index[i].loaded == None {
            continue;
          }
          listings := listings + [Object(index[i].loaded.value, expiration)];
        }
        TakeAll(index);
      }
    }

    /** The walk, which hangs if its last fetch fails its API lookup. */
    method Walk(job: Job, w: World, root: Cid) returns (walked: seq<Cid>, hung: bool)
      requires Acyclic(w.graph) && Crawls(job, w) && root == RootOf(job, w)
      ensures IsJobWalk(job, w, walked) && (hung <==> HangsAtEnd(w, walked))
      ensures forall x :: x in walked ==> Reaches(w.graph, root, x)
      ensures WalkSucceeds(job, w) ==> forall x :: Reaches(w.graph, root, x) ==> x in walked
    {
      var failed;
      walked, failed := FetchGraph.Fetch(w.graph, root, WalkDelivers(w));
      hung := failed && !w.walkApi(|walked| - 1, walked[|walked| - 1]);
    }

    /**
      The CIDs to record; a failed walk contributes what it listed before it failed,
      but a walk whose last fetch failed its API lookup hangs.
     */
    method BuildGraph(job: Job, w: World, root: Cid, newListings: seq<string>) returns (graph: seq<Cid>, hung: bool)
      requires Acyclic(w.graph) && Crawls(job, w) && root == RootOf(job, w)
      requires forall s :: s in newListings <==> w.decode(s).Some? && exists e :: e in Entries(w) && e.cid == s
      ensures hung ==> config.cacheData && WalkCanHang(job, w)
      ensures !hung ==> Records(job, w, config.cacheData, graph)
    {
      graph, hung := [], false;
      if config.cacheData {
        graph, hung := Walk(job, w, root);
        if hung {
          return;
        }
      }
      ghost var walked := graph;
      graph := graph + [root];
      if w.profileLink.LinkTo? {
        graph := graph + [w.profileLink.cid];
      }
      if w.listingsLink.LinkTo? {
        graph := graph + [w.listingsLink.cid];
      }
      graph := AppendListings(w, graph, newListings);
      GraphRecords(job, w, config.cacheData, walked, newListings, graph);
    }

    method AppendListings(w: World, fixed: seq<Cid>, newListings: seq<string>) returns (graph: seq<Cid>)
      ensures fixed <= graph
      ensures forall x :: x in graph <==> x in fixed || exists s :: s in newListings && w.decode(s) == Some(x)
    {
      graph := fixed;
      for i := 0 to |newListings|
        invariant fixed <= graph
        invariant forall x :: x in graph <==> x in fixed || exists s :: s in newListings[..i] && w.decode(s) == Some(x)
      {
        TakeNext(newListings, i);
        if w.decode(newListings[i]) != None {
          graph := graph + [w.decode(newListings[i]).value];
        }
      }
      TakeAll(newListings);
    }
  }
}
