/**
  The crawler's peers, clock and jobs as one state machine: five writers of the peer
  table, three producers of jobs, and workers, in any interleaving.  A writer whose
  statements fail leaves the table, and is a step only if it does something else: a
  failed `Publish` can queue a job, and a failed `Finish` ends one.
 */
module PeerMachine {
  import opened Base
  import opened Peers
  import opened Query

  /**
    A job in flight: an entry of an old-node snapshot, a job waiting to be taken
    (from the moment its producer checked the ban), or a running one.
   */
  datatype Stage = Snapshot | Waiting | Running

  datatype Item = Item(peer: PeerId, stage: Stage, pin: bool)

  datatype State = State(peers: Table, now: Time, items: map<nat, Item>, nextItem: nat)

  datatype Step =
    | Advance(time: Time)
    | Connection(p: PeerId, t0: Time, t1: Time)
    | Publish(p: PeerId, expiration: Time, record: string, t0: Time, t1: Time, load: bool, save: bool)
    | Ban(p: PeerId)
    | Unban(p: PeerId)
    | CrawlNode(p: PeerId, pin: bool)
    | OldNodeTick(batch: seq<PeerId>, pin: bool)
    | DropEntry(id: nat)
    | QueueEntry(id: nat)
    | Take(id: nat)
    | Finish(id: nat, t0: Time, t1: Time, save: bool)

  // ----- Steps -----

  predicate Enabled(s: State, step: Step) {
    match step
    case Advance(time) => s.now <= time
    case Connection(p, t0, t1) => p != NO_PEER && s.now <= t0 <= t1
    case Publish(p, _, _, t0, t1, _, _) => p != NO_PEER && s.now <= t0 <= t1
    case Ban(p) => p != NO_PEER
    case Unban(p) => p != NO_PEER
    case CrawlNode(p, _) => p != NO_PEER
    case OldNodeTick(batch, _) => IsOldestBatch(s.peers, s.now, BATCH, batch)
    case DropEntry(id) => id in s.items && s.items[id].stage == Snapshot
    case QueueEntry(id) => id in s.items && s.items[id].stage == Snapshot
    case Take(id) => id in s.items && s.items[id].stage == Waiting
    case Finish(id, t0, t1, _) => id in s.items && s.items[id].stage == Running && s.now <= t0 <= t1
  }

  function Admit(s: State, p: PeerId, pin: bool): State {
    s.(items := s.items[s.nextItem := Item(p, Waiting, pin)], nextItem := s.nextItem + 1)
  }

  /** One snapshot entry per peer of the batch, numbered from `first`. */
  function SnapshotItems(first: nat, batch: seq<PeerId>, pin: bool): (m: map<nat, Item>)
    ensures forall id :: id in m <==> first <= id < first + |batch|
    ensures forall id :: id in m ==> m[id] == Item(batch[id - first], Snapshot, pin)
  {
    if batch == [] then map[] else
      var n := |batch| - 1;
      SnapshotItems(first, batch[..n], pin)[first + n := Item(batch[n], Snapshot, pin)]
  }

  function Apply(s: State, step: Step): State
    requires Enabled(s, step)
  {
    match step
    case Advance(time) => s.(now := time)
    case Connection(p, t0, t1) => s.(peers := Seen(s.peers, p, t0, t1), now := t1)
    case Publish(p, expiration, record, t0, t1, load, save) =>
      var peers := if load && save then Published(s.peers, p, expiration, record, t0, t1) else s.peers;
      var saved := s.(peers := peers, now := t1);
      if load && Banned(s.peers, p) then saved else Admit(saved, p, false)
    case Ban(p) => s.(peers := WithBan(s.peers, p, true))
    case Unban(p) => s.(peers := WithBan(s.peers, p, false))
    case CrawlNode(p, pin) => if Banned(s.peers, p) then s else Admit(s, p, pin)
    case OldNodeTick(batch, pin) =>
      s.(items := s.items + SnapshotItems(s.nextItem, batch, pin), nextItem := s.nextItem + |batch|)
    case DropEntry(id) => s.(items := s.items - {id})
    case QueueEntry(id) => s.(items := s.items[id := s.items[id].(stage := Waiting)])
    case Take(id) => s.(items := s.items[id := s.items[id].(stage := Running)])
    case Finish(id, t0, t1, save) =>
      var item := s.items[id];
      s.(items := s.items - {id}, now := t1,
         peers := if save then CrawlNoted(s.peers, item.peer, item.pin, t0, t1) else s.peers)
  }

  ghost predicate IsRun(states: seq<State>, steps: seq<Step>) {
    && |states| == |steps| + 1
    && forall k | 0 <= k < |steps| :: Enabled(states[k], steps[k]) && states[k + 1] == Apply(states[k], steps[k])
  }

  lemma RunGoesOn(states: seq<State>, steps: seq<Step>, step: Step)
    requires IsRun(states, steps) && Enabled(states[|steps|], step)
    ensures IsRun(states + [Apply(states[|steps|], step)], steps + [step])
  {
    var states', steps' := states + [Apply(states[|steps|], step)], steps + [step];
    forall k | 0 <= k < |steps'|
      ensures Enabled(states'[k], steps'[k]) && states'[k + 1] == Apply(states'[k], steps'[k])
    {
      if k < |steps| {
        assert states'[k] == states[k] && states'[k + 1] == states[k + 1] && steps'[k] == steps[k];
      }
    }
  }

  // ----- Invariants of the peer table -----

  predicate RowOk(row: Peer, now: Time) {
    0 <= row.firstSeen <= row.lastSeen <= now && 0 <= row.lastCrawled <= now && 0 <= row.lastPinned <= now
  }

  predicate Inv(s: State) {
    && 0 <= s.now
    && Keyed(s.peers)
    && (forall p | p in s.peers && p != NO_PEER :: RowOk(s.peers[p], s.now))
    && (NO_PEER in s.peers ==> s.peers[NO_PEER].expiration == 0)
    && (forall id | id in s.items :: id < s.nextItem && s.items[id].peer != NO_PEER)
  }

  predicate IsStart(s: State) {
    s.peers == map[] && s.now >= 0 && s.items == map[]
  }

  lemma InvStarts(s: State)
    requires IsStart(s)
    ensures Inv(s)
  {
  }

  lemma InvQuietStep(s: State, step: Step)
    requires Inv(s) && Enabled(s, step) && !step.OldNodeTick?
    ensures Inv(Apply(s, step))
  {
  }

  lemma InvTickStep(s: State, step: Step)
    requires Inv(s) && Enabled(s, step) && step.OldNodeTick?
    ensures Inv(Apply(s, step))
  {
    forall i | 0 <= i < |step.batch|
      ensures step.batch[i] != NO_PEER
    {
      BatchIsEligible(s.peers, s.now, BATCH, step.batch, step.batch[i]);
    }
  }

  lemma InvStep(s: State, step: Step)
    requires Inv(s) && Enabled(s, step)
    ensures Inv(Apply(s, step))
  {
    if step.OldNodeTick? {
      InvTickStep(s, step);
    } else {
      InvQuietStep(s, step);
    }
  }

  lemma {:induction false} InvHolds(states: seq<State>, steps: seq<Step>, k: nat)
    requires IsRun(states, steps) && k <= |steps| && Inv(states[0])
    ensures Inv(states[k])
  {
    if k > 0 {
      InvHolds(states, steps, k - 1);
      InvStep(states[k - 1], steps[k - 1]);
      assert states[k - 1 + 1] == Apply(states[k - 1], steps[k - 1]);
    }
  }

  /** What a run from a start reaches meets the invariant, so the properties of runs below hold of it. */
  lemma InvReachable(states: seq<State>, steps: seq<Step>, k: nat)
    requires IsRun(states, steps) && k <= |steps| && IsStart(states[0])
    ensures Inv(states[0]) && Inv(states[k])
  {
    InvStarts(states[0]);
    InvHolds(states, steps, k);
  }

  /** From the first row on, a peer's history only moves forward. */
  predicate Forward(before: Peer, after: Peer) {
    && after.firstSeen == before.firstSeen
    && after.lastSeen >= before.lastSeen
    && after.lastCrawled >= before.lastCrawled
    && after.lastPinned >= before.lastPinned
  }

  lemma ForwardStep(s: State, step: Step, p: PeerId)
    requires Inv(s) && Enabled(s, step) && p != NO_PEER && p in s.peers
    ensures var s' := Apply(s, step);
            && p in s'.peers && Forward(s.peers[p], s'.peers[p]) && s.now <= s'.now
            && (step != Ban(p) && step != Unban(p) ==> s'.peers[p].banned == s.peers[p].banned)
  {
  }

  /**
    Over any run: rows never vanish, the first-seen time is fixed, the other times
    never go back, and the first sighting is not after the last.
   */
  lemma {:induction false} RowsMoveForward(states: seq<State>, steps: seq<Step>, j: nat, k: nat, p: PeerId)
    requires IsRun(states, steps) && Inv(states[0]) && j <= k <= |steps|
    requires p != NO_PEER && p in states[j].peers
    ensures p in states[k].peers && Forward(states[j].peers[p], states[k].peers[p]) && states[j].now <= states[k].now
    ensures states[k].peers[p].firstSeen <= states[k].peers[p].lastSeen
    decreases k
  {
    InvHolds(states, steps, k);
    if j < k {
      RowsMoveForward(states, steps, j, k - 1, p);
      InvHolds(states, steps, k - 1);
      ForwardStep(states[k - 1], steps[k - 1], p);
      assert states[k - 1 + 1] == Apply(states[k - 1], steps[k - 1]);
    }
  }

  lemma BanFlagStep(s: State, step: Step, p: PeerId)
    requires Inv(s) && Enabled(s, step) && p != NO_PEER && step != Ban(p) && step != Unban(p)
    ensures Banned(Apply(s, step).peers, p) == Banned(s.peers, p)
  {
  }

  /** A run without a ban or unban of `p` leaves its ban flag as it was; a new row is not banned. */
  lemma {:induction false} OnlyBansBan(states: seq<State>, steps: seq<Step>, j: nat, k: nat, p: PeerId)
    requires IsRun(states, steps) && Inv(states[0]) && j <= k <= |steps| && p != NO_PEER
    requires forall i | j <= i < k :: steps[i] != Ban(p) && steps[i] != Unban(p)
    ensures Banned(states[k].peers, p) == Banned(states[j].peers, p)
    decreases k
  {
    if j < k {
      OnlyBansBan(states, steps, j, k - 1, p);
      InvHolds(states, steps, k - 1);
      BanFlagStep(states[k - 1], steps[k - 1], p);
      assert states[k - 1 + 1] == Apply(states[k - 1], steps[k - 1]);
    }
  }

  /** An unban undoes a ban: the row is as before, but not banned, and no other row changed. */
  lemma UnbanUndoesBan(s: State, p: PeerId, q: PeerId)
    requires Inv(s) && p != NO_PEER
    ensures var s1 := Apply(s, Ban(p)); var s2 := Apply(s1, Unban(p));
            && Banned(s1.peers, p) && !Banned(s2.peers, p)
            && (p in s.peers ==> s2.peers[p] == s.peers[p].(banned := false))
            && (q != p ==> (q in s2.peers <==> q in s.peers) && Lookup(s2.peers, q) == Lookup(s.peers, q))
  {
  }

  // ----- No job is lost -----

  predicate Ends(step: Step, id: nat) {
    (step.DropEntry? || step.Finish?) && step.id == id
  }

  function Rank(stage: Stage): nat {
    match stage
    case Snapshot => 0
    case Waiting => 1
    case Running => 2
  }

  /** What one step can do to the item `id`, if it is or once was in flight. */
  lemma ItemStep(s: State, step: Step, id: nat)
    requires Inv(s) && Enabled(s, step) && id < s.nextItem
    ensures var s' := Apply(s, step);
            && s.nextItem <= s'.nextItem
            && (id in s'.items <==> id in s.items && !Ends(step, id))
            && (id in s'.items ==> Carries(s.items[id], s'.items[id]))
  {
  }

  /** The same job, no stage further back. */
  predicate Carries(before: Item, after: Item) {
    after.peer == before.peer && after.pin == before.pin && Rank(before.stage) <= Rank(after.stage)
  }

  /**
    An item stays in flight, for the same peer and never back a stage, until its
    job finishes or its snapshot entry is found undecodable; then it is gone for good.
   */
  lemma {:induction false} JobsAreConserved(states: seq<State>, steps: seq<Step>, j: nat, k: nat, id: nat)
    requires IsRun(states, steps) && Inv(states[0]) && j <= k <= |steps| && id in states[j].items
    ensures id in states[k].items <==> forall i | j <= i < k :: !Ends(steps[i], id)
    ensures id in states[k].items ==> Carries(states[j].items[id], states[k].items[id])
    ensures id < states[k].nextItem
    decreases k
  {
    InvHolds(states, steps, k);
    if j < k {
      JobsAreConserved(states, steps, j, k - 1, id);
      InvHolds(states, steps, k - 1);
      ItemStep(states[k - 1], steps[k - 1], id);
      assert states[k - 1 + 1] == Apply(states[k - 1], steps[k - 1]);
    }
  }

  // ----- A ban drains -----

  function InFlight(s: State, p: PeerId): set<nat> {
    set id | id in s.items && s.items[id].peer == p
  }

  /** A published record whose row cannot be loaded is queued without a ban check. */
  predicate SkipsBanCheck(step: Step, p: PeerId) {
    step.Publish? && step.p == p && !step.load
  }

  predicate Produces(step: Step, p: PeerId) {
    || ((step.CrawlNode? || step.Publish?) && step.p == p)
    || (step.OldNodeTick? && p in step.batch)
  }

  lemma SnapshotAdmits(s: State, batch: seq<PeerId>, pin: bool, p: PeerId)
    requires forall id | id in s.items :: id < s.nextItem
    ensures !(InFlight(s.(items := s.items + SnapshotItems(s.nextItem, batch, pin)), p) <= InFlight(s, p)) <==>
            p in batch
  {
    var s' := s.(items := s.items + SnapshotItems(s.nextItem, batch, pin));
    if p in batch {
      var i :| 0 <= i < |batch| && batch[i] == p;
      var id := s.nextItem + i;
      assert id in InFlight(s', p) && id !in InFlight(s, p);
    } else {
      forall id | id in InFlight(s', p)
        ensures id in InFlight(s, p)
      {
      }
    }
  }

  lemma TickAdmits(s: State, step: Step, p: PeerId)
    requires Inv(s) && Enabled(s, step) && step.OldNodeTick?
    ensures !(InFlight(Apply(s, step), p) <= InFlight(s, p)) <==> p in step.batch
    ensures p in step.batch ==> !Banned(s.peers, p)
  {
    SnapshotAdmits(s, step.batch, step.pin, p);
    assert InFlight(Apply(s, step), p) ==
           InFlight(s.(items := s.items + SnapshotItems(s.nextItem, step.batch, step.pin)), p);
    if p in step.batch {
      BatchIsEligible(s.peers, s.now, BATCH, step.batch, p);
    }
  }

  /** Exactly when a step puts a new job for `p` in flight. */
  lemma AdmissionExact(s: State, step: Step, p: PeerId)
    requires Inv(s) && Enabled(s, step)
    ensures !(InFlight(Apply(s, step), p) <= InFlight(s, p)) <==>
            Produces(step, p) && (!Banned(s.peers, p) || SkipsBanCheck(step, p))
  {
    if step.OldNodeTick? {
      TickAdmits(s, step, p);
    } else if Produces(step, p) && (!Banned(s.peers, p) || SkipsBanCheck(step, p)) {
      assert s.nextItem !in s.items;
      assert s.nextItem in InFlight(Apply(s, step), p);
    }
  }

  lemma BanStep(s: State, step: Step, p: PeerId)
    requires Inv(s) && Enabled(s, step) && p != NO_PEER && Banned(s.peers, p)
    requires step != Unban(p) && !SkipsBanCheck(step, p)
    ensures Banned(Apply(s, step).peers, p) && InFlight(Apply(s, step), p) <= InFlight(s, p)
  {
    AdmissionExact(s, step, p);
    if step != Ban(p) {
      BanFlagStep(s, step, p);
    }
  }

  /**
    While `p` stays banned, whatever else happens, no job for `p` enters: those
    in flight at the end were in flight at the start.
   */
  lemma {:induction false} BanDrains(states: seq<State>, steps: seq<Step>, j: nat, k: nat, p: PeerId)
    requires IsRun(states, steps) && Inv(states[0]) && j <= k <= |steps| && p != NO_PEER
    requires Banned(states[j].peers, p)
    requires forall i | j <= i < k :: steps[i] != Unban(p) && !SkipsBanCheck(steps[i], p)
    ensures Banned(states[k].peers, p)
    ensures InFlight(states[k], p) <= InFlight(states[j], p)
    decreases k
  {
    if j < k {
      BanDrains(states, steps, j, k - 1, p);
      InvHolds(states, steps, k - 1);
      BanStep(states[k - 1], steps[k - 1], p);
      assert states[k - 1 + 1] == Apply(states[k - 1], steps[k - 1]);
    }
  }

  /** A job that waits when its peer is banned is still taken and run to its end, and its crawl is noted. */
  lemma WaitingJobOutlivesBan(s: State, id: nat)
    requires Inv(s) && id in s.items && s.items[id].stage == Waiting && s.items[id].peer in s.peers
    ensures var p := s.items[id].peer; var s1 := Apply(s, Ban(p));
            && Banned(s1.peers, p) && Enabled(s1, Take(id))
            && Enabled(Apply(s1, Take(id)), Finish(id, s.now, s.now, true))
            && Apply(Apply(s1, Take(id)), Finish(id, s.now, s.now, true)).peers[p].lastCrawled == s.now
  {
    var p := s.items[id].peer;
    var s2 := Apply(Apply(s, Ban(p)), Take(id));
    assert s2.items[id] == Item(p, Running, s.items[id].pin) && s2.peers[p].id == p;
  }

  /** The exception is real: a banned peer is queued when its row cannot be loaded. */
  lemma UnloadableRowIsQueued(s: State, p: PeerId, record: string)
    requires Inv(s) && p != NO_PEER && Banned(s.peers, p)
    ensures exists step ::
              Enabled(s, step) && Banned(Apply(s, step).peers, p) && !(InFlight(Apply(s, step), p) <= InFlight(s, p))
  {
    var step := Publish(p, 0, record, s.now, s.now, false, true);
    AdmissionExact(s, step, p);
    assert Enabled(s, step) && Banned(Apply(s, step).peers, p);
  }
}
