/**
  When a peer can be crawled again within the week: exactly when its crawl was not
  noted, because it has no row or because the update failed.
 */
module Repeats {
  import opened Base
  import opened Peers
  import opened Query
  import opened PeerMachine
  import opened Scheduler
  import opened Starvation

  // ----- The next tick -----

  /** The first record of an unknown peer lets the very next tick hand it out, whoever else is eligible. */
  lemma NewcomerIsHandedOut(s: State, p: PeerId, expiration: Time, record: string)
    requires Inv(s) && p != NO_PEER && p !in s.peers && expiration > s.now > RECRAWL_AFTER
    ensures CanBeHandedOut(Apply(s, Publish(p, expiration, record, s.now, s.now, true, true)), p)
  {
    var s' := Apply(s, Publish(p, expiration, record, s.now, s.now, true, true));
    InvStep(s, Publish(p, expiration, record, s.now, s.now, true, true));
    assert Eligible(s'.peers, p, s'.now) && s'.peers[p].lastCrawled == 0;
    assert StrictlyBefore(s'.peers, EligiblePeers(s'.peers, s'.now), p) == {};
    HandedOutExactly(s', p);
  }

  /** After a crawl whose update failed, the next tick can hand the peer out if it was still its turn. */
  lemma UnsavedCrawlExactly(s: State, id: nat, t0: Time, t1: Time)
    requires Enabled(s, Finish(id, t0, t1, false))
    ensures var p := s.items[id].peer;
            CanBeHandedOut(Apply(s, Finish(id, t0, t1, false)), p) <==>
            Eligible(s.peers, p, t1) && |StrictlyBefore(s.peers, EligiblePeers(s.peers, t1), p)| < BATCH
  {
    HandedOutExactly(Apply(s, Finish(id, t0, t1, false)), s.items[id].peer);
  }

  // ----- Any continuation -----

  /** From step `from` on, and by `deadline`, a tick hands `p` out. */
  ghost predicate HandsOut(r: Run, from: nat, p: PeerId, deadline: Time) {
    r.Valid() && exists k | from <= k < |r.steps| ::
      r.steps[k].OldNodeTick? && p in r.steps[k].batch && r.states[k].now <= deadline
  }

  ghost predicate CanRepeat(r: Run, p: PeerId, deadline: Time) {
    exists r': Run :: Continues(r, r') && HandsOut(r', |r.steps|, p, deadline)
  }

  /** The crawl that this step ends was not noted for its peer, and its update took no longer than a week. */
  predicate GoesUnnoted(s: State, step: Step)
    requires Enabled(s, step) && step.Finish?
  {
    var p := s.items[step.id].peer;
    && step.t1 <= step.t0 + RECRAWL_AFTER
    && if p in s.peers then !step.save && s.peers[p].lastCrawled < step.t0 else 0 < step.t0
  }

  lemma RepeatIsUnnoted(r: Run, j: nat, k: nat, p: PeerId)
    requires r.Valid() && j < k < |r.steps| && r.steps[j].Finish? && r.states[j].items[r.steps[j].id].peer == p
    requires r.steps[k].OldNodeTick? && p in r.steps[k].batch && r.states[k].now <= r.steps[j].t0 + RECRAWL_AFTER
    ensures GoesUnnoted(r.states[j], r.steps[j])
  {
    BatchIsEligible(r.states[k].peers, r.states[k].now, BATCH, r.steps[k].batch, p);
    InvHolds(r.states, r.steps, j);
    InvHolds(r.states, r.steps, k);
    TimeGoesOn(r.states, r.steps, j + 1, k);
    assert r.states[j + 1] == Apply(r.states[j], r.steps[j]);
    if p in r.states[j].peers {
      RowsMoveForward(r.states, r.steps, j + 1, k, p);
    }
  }

  lemma RepeatsOnlyIfUnnoted(r: Run, p: PeerId)
    requires r.Valid() && |r.steps| > 0
    requires var j := |r.steps| - 1; r.steps[j].Finish? && r.states[j].items[r.steps[j].id].peer == p
    requires CanRepeat(r, p, r.steps[|r.steps| - 1].t0 + RECRAWL_AFTER)
    ensures GoesUnnoted(r.states[|r.steps| - 1], r.steps[|r.steps| - 1])
  {
    var j, deadline := |r.steps| - 1, r.steps[|r.steps| - 1].t0 + RECRAWL_AFTER;
    var r': Run :| Continues(r, r') && HandsOut(r', |r.steps|, p, deadline);
    var k :| |r.steps| <= k < |r'.steps| && r'.steps[k].OldNodeTick? && p in r'.steps[k].batch
             && r'.states[k].now <= deadline;
    assert r'.states[j] == r.states[j] && r'.steps[j] == r.steps[j];
    RepeatIsUnnoted(r', j, k, p);
  }

  lemma {:induction false} TimeGoesOn(states: seq<State>, steps: seq<Step>, j: nat, k: nat)
    requires IsRun(states, steps) && j <= k <= |steps|
    ensures states[j].now <= states[k].now
    decreases k
  {
    if j < k {
      TimeGoesOn(states, steps, j, k - 1);
      TimeStep(states[k - 1], steps[k - 1]);
      assert states[k - 1 + 1] == Apply(states[k - 1], steps[k - 1]);
    }
  }

  lemma TimeStep(s: State, step: Step)
    requires Enabled(s, step)
    ensures s.now <= Apply(s, step).now
  {
  }

  // ----- The continuation that hands the peer out -----

  /** `p` is unbanned if it was banned, and publishes a record at the time `t`. */
  lemma Publishes(r: Run, p: PeerId, t: Time) returns (r': Run)
    requires r.Valid() && p != NO_PEER && r.Last().now <= t
    requires 0 <= Lookup(r.Last().peers, p).lastCrawled < t - RECRAWL_AFTER
    ensures r'.Valid() && Continues(r, r') && r'.Last().now == t && Eligible(r'.Last().peers, p, t)
  {
    LastIsOk(r);
    var r1 := r;
    if Banned(r.Last().peers, p) {
      r1 := Prolong(r, Unban(p));
    }
    r' := Prolong(r1, Publish(p, t + 1, "", t, t, true, true));
  }

  /** An eligible peer is crawled by hand. */
  lemma CrawledByHand(r: Run, x: PeerId) returns (r': Run)
    requires r.Valid() && Eligible(r.Last().peers, x, r.Last().now)
    ensures r'.Valid() && Continues(r, r') && r'.Last().now == r.Last().now
    ensures r'.Last().peers == CrawlNoted(r.Last().peers, x, false, r.Last().now, r.Last().now)
  {
    LastIsOk(r);
    var id, now := r.Last().nextItem, r.Last().now;
    assert x != NO_PEER;
    var r1 := Prolong(r, CrawlNode(x, false));
    var r2 := Prolong(r1, Take(id));
    r' := Prolong(r2, Finish(id, now, now, true));
  }

  /** The eligible peers strictly ahead of `p`. */
  function InFront(s: State, p: PeerId): set<PeerId>
    requires p in s.peers
  {
    StrictlyBefore(s.peers, EligiblePeers(s.peers, s.now), p)
  }

  lemma CrawledLeavesFront(t: Table, now: Time, p: PeerId, x: PeerId)
    requires Keyed(t) && p in t && x in StrictlyBefore(t, EligiblePeers(t, now), p)
    ensures var t' := CrawlNoted(t, x, false, now, now);
            && p in t' && t'[p] == t[p]
            && StrictlyBefore(t', EligiblePeers(t', now), p) == StrictlyBefore(t, EligiblePeers(t, now), p) - {x}
  {
    var t' := CrawlNoted(t, x, false, now, now);
    assert !Eligible(t', x, now);
    assert forall y | y in t && y != x :: Eligible(t', y, now) <==> Eligible(t, y, now);
  }

  /** One after the other those ahead of `p` are crawled. */
  lemma {:induction false} FrontIsCrawled(r: Run, p: PeerId) returns (r': Run)
    requires r.Valid() && Eligible(r.Last().peers, p, r.Last().now)
    ensures r'.Valid() && Continues(r, r') && r'.Last().now == r.Last().now
    ensures Eligible(r'.Last().peers, p, r'.Last().now) && InFront(r'.Last(), p) == {}
    decreases InFront(r.Last(), p)
  {
    LastIsOk(r);
    if InFront(r.Last(), p) == {} {
      r' := r;
    } else {
      var x :| x in InFront(r.Last(), p);
      var r1 := CrawledByHand(r, x);
      CrawledLeavesFront(r.Last().peers, r.Last().now, p, x);
      r' := FrontIsCrawled(r1, p);
    }
  }

  lemma HandedOutThen(r: Run, p: PeerId) returns (r': Run)
    requires r.Valid() && CanBeHandedOut(r.Last(), p)
    ensures Continues(r, r') && HandsOut(r', |r.steps|, p, r.Last().now)
  {
    var batch, pin :| Enabled(r.Last(), OldNodeTick(batch, pin)) && p in batch;
    r' := Prolong(r, OldNodeTick(batch, pin));
    assert r'.steps[|r.steps|] == OldNodeTick(batch, pin) && r'.states[|r.steps|] == r.Last();
  }

  lemma HandsOutLater(r: Run, r1: Run, r': Run, p: PeerId, deadline: Time)
    requires Continues(r, r1) && Continues(r1, r') && HandsOut(r', |r1.steps|, p, deadline)
    ensures Continues(r, r') && HandsOut(r', |r.steps|, p, deadline)
  {
  }

  lemma UnnotedRepeats(r: Run, p: PeerId)
    requires r.Valid() && |r.steps| > 0
    requires var j := |r.steps| - 1; r.steps[j].Finish? && r.states[j].items[r.steps[j].id].peer == p
    requires GoesUnnoted(r.states[|r.steps| - 1], r.steps[|r.steps| - 1])
    ensures CanRepeat(r, p, r.steps[|r.steps| - 1].t0 + RECRAWL_AFTER)
  {
    var j := |r.steps| - 1;
    var step, deadline := r.steps[j], r.steps[j].t0 + RECRAWL_AFTER;
    InvHolds(r.states, r.steps, j);
    assert r.states[j + 1] == Apply(r.states[j], step);
    var r1 := Publishes(r, p, deadline);
    var r2 := FrontIsCrawled(r1, p);
    HandedOutExactly(r2.Last(), p);
    var r' := HandedOutThen(r2, p);
    HandsOutLater(r, r2, r', p, deadline);
  }

  /**
    A finished crawl can be followed by another handing out within seven days of its
    start if and only if it was not noted: the peer has no row, or the update failed
    and the last noted crawl is older; and the update was over within the week.
   */
  lemma RepeatsExactly(r: Run)
    requires r.Valid() && |r.steps| > 0 && r.steps[|r.steps| - 1].Finish?
    ensures var s, step := r.states[|r.steps| - 1], r.steps[|r.steps| - 1];
            CanRepeat(r, s.items[step.id].peer, step.t0 + RECRAWL_AFTER) <==> GoesUnnoted(s, step)
  {
    var j := |r.steps| - 1;
    var p := r.states[j].items[r.steps[j].id].peer;
    if CanRepeat(r, p, r.steps[j].t0 + RECRAWL_AFTER) {
      RepeatsOnlyIfUnnoted(r, p);
    }
    if GoesUnnoted(r.states[j], r.steps[j]) {
      UnnotedRepeats(r, p);
    }
  }

  // ----- Both cases come about -----

  /** After any run, an unknown peer can publish its first record and be handed out in the same moment. */
  lemma UnknownPeerIsHandedOutAtOnce(r: Run, p: PeerId) returns (r': Run)
    requires r.Valid() && p != NO_PEER && p !in r.Last().peers && r.Last().now > RECRAWL_AFTER
    ensures Continues(r, r') && HandsOut(r', |r.steps|, p, r.Last().now)
  {
    LastIsOk(r);
    var now := r.Last().now;
    NewcomerIsHandedOut(r.Last(), p, now + 1, "");
    var r1 := Prolong(r, Publish(p, now + 1, "", now, now, true, true));
    r' := HandedOutThen(r1, p);
    HandsOutLater(r, r1, r', p, now);
  }

  /** A run from the start at whose end the crawl of a peer without a row has been saved. */
  lemma UnknownPeerIsCrawled(p: PeerId) returns (r: Run)
    requires p != NO_PEER
    ensures r.Valid() && IsStart(r.states[0]) && p !in r.Last().peers && r.Last().now == RECRAWL_AFTER + 1
    ensures |r.steps| > 0 && Recrawls(r.states[|r.steps| - 1], r.steps[|r.steps| - 1], p)
  {
    var now := RECRAWL_AFTER + 1;
    var start := Run([State(map[], now, map[], 0)], []);
    ValidFromStart(start);
    var r1 := Prolong(start, CrawlNode(p, false));
    var r2 := Prolong(r1, Take(0));
    r := Prolong(r2, Finish(0, now, now, true));
  }

  /** A run from the start in which the crawl of a known peer is not saved, and is repeated within the week. */
  lemma UnsavedCrawlIsRepeated(p: PeerId) returns (r: Run)
    requires p != NO_PEER
    ensures r.Valid() && IsStart(r.states[0]) && p in r.Last().peers && |r.steps| > 0
    ensures var step := r.steps[|r.steps| - 1];
            && step.Finish? && !step.save && r.states[|r.steps| - 1].items[step.id].peer == p
            && CanRepeat(r, p, step.t0 + RECRAWL_AFTER)
  {
    var r0 := Beginning(p, RECRAWL_AFTER + DAY);
    LastIsOk(r0);
    var id, now := r0.Last().nextItem, r0.Last().now;
    var r1 := Prolong(r0, CrawlNode(p, false));
    var r2 := Prolong(r1, Take(id));
    r := Prolong(r2, Finish(id, now, now, false));
    assert r.states[|r.steps| - 1] == r2.Last();
    RepeatsExactly(r);
  }
}
