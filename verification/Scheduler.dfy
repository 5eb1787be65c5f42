/** The old-node loop over whole runs: no early repeats, and when a peer can be passed over. */
module Scheduler {
  import opened Base
  import opened Peers
  import opened Query
  import opened PeerMachine

  // ----- No early repeats -----

  /**
    A known peer whose crawl was noted is not handed out by the old-node loop for
    seven days, whatever else happens meanwhile.
   */
  lemma NotHandedOutForAWeek(states: seq<State>, steps: seq<Step>, j: nat, k: nat, p: PeerId)
    requires IsRun(states, steps) && Inv(states[0]) && j < k < |steps| && p in states[j].peers
    requires Recrawls(states[j], steps[j], p)
    requires steps[k].OldNodeTick? && p in steps[k].batch
    ensures states[k].now > steps[j].t0 + RECRAWL_AFTER
  {
    InvHolds(states, steps, j);
    assert p != NO_PEER;
    assert states[j + 1] == Apply(states[j], steps[j]);
    RowsMoveForward(states, steps, j + 1, k, p);
    BatchIsEligible(states[k].peers, states[k].now, BATCH, steps[k].batch, p);
  }

  /** The peer has to be known: the crawl of a peer without a row is not noted for it. */
  lemma UnknownPeerIsForgotten(s: State, step: Step)
    requires Inv(s) && Enabled(s, step) && step.Finish? && s.items[step.id].peer !in s.peers
    ensures s.items[step.id].peer !in Apply(s, step).peers
  {
    assert s.items[step.id].peer != NO_PEER;
  }

  // ----- One tick -----

  /** The eligible peers that come before `p` or tie with it. */
  function Ahead(s: State, p: PeerId): set<PeerId>
    requires p in s.peers
  {
    Before(s.peers, EligiblePeers(s.peers, s.now), p)
  }

  /** A tick of the old-node loop is possible that passes `p` over. */
  ghost predicate CanBePassedOver(s: State, p: PeerId) {
    exists batch, pin :: Enabled(s, OldNodeTick(batch, pin)) && p !in batch
  }

  /** A tick can pass an eligible peer over if and only if ten others are ahead of it or level. */
  lemma PassedOverExactly(s: State, p: PeerId)
    requires Eligible(s.peers, p, s.now)
    ensures CanBePassedOver(s, p) <==> |Ahead(s, p)| >= BATCH
  {
    var eligible := EligiblePeers(s.peers, s.now);
    LeftOutExactly(s.peers, eligible, BATCH, p);
    if CanBePassedOver(s, p) {
      var batch, pin :| Enabled(s, OldNodeTick(batch, pin)) && p !in batch;
      assert IsOldestOf(s.peers, eligible, BATCH, batch);
    }
    if CanBeLeftOut(s.peers, eligible, BATCH, p) {
      var batch :| IsOldestOf(s.peers, eligible, BATCH, batch) && p !in batch;
      assert Enabled(s, OldNodeTick(batch, false));
    }
  }

  /** A tick of the old-node loop is possible that hands `p` out. */
  ghost predicate CanBeHandedOut(s: State, p: PeerId) {
    exists batch, pin :: Enabled(s, OldNodeTick(batch, pin)) && p in batch
  }

  /** A tick can hand a peer out if and only if it is eligible and fewer than ten others are strictly ahead. */
  lemma HandedOutExactly(s: State, p: PeerId)
    ensures CanBeHandedOut(s, p) <==>
            Eligible(s.peers, p, s.now) && |StrictlyBefore(s.peers, EligiblePeers(s.peers, s.now), p)| < BATCH
  {
    var eligible := EligiblePeers(s.peers, s.now);
    if CanBeHandedOut(s, p) {
      var batch, pin :| Enabled(s, OldNodeTick(batch, pin)) && p in batch;
      BatchIsEligible(s.peers, s.now, BATCH, batch, p);
      assert IsOldestOf(s.peers, eligible, BATCH, batch);
      ChosenExactly(s.peers, eligible, BATCH, p);
    } else if Eligible(s.peers, p, s.now) {
      ChosenExactly(s.peers, eligible, BATCH, p);
      if CanBeChosen(s.peers, eligible, BATCH, p) {
        var batch :| IsOldestOf(s.peers, eligible, BATCH, batch) && p in batch;
        assert Enabled(s, OldNodeTick(batch, false));
      }
    }
  }

  // ----- Being overtaken -----

  /** A sighting, a record or an unban that makes a peer eligible ahead of `p`. */
  predicate Overtakes(s: State, step: Step, p: PeerId)
    requires Enabled(s, step) && p in s.peers
  {
    && (step.Connection? || step.Publish? || step.Unban?)
    && step.p != p
    && var s' := Apply(s, step);
       && !Eligible(s.peers, step.p, s.now)
       && Eligible(s'.peers, step.p, s'.now)
       && s'.peers[step.p].lastCrawled <= s.peers[p].lastCrawled
  }

  /** A newcomer has never been crawled, so its first record puts it ahead of every known peer. */
  lemma NewcomerOvertakes(s: State, p: PeerId, x: PeerId, expiration: Time, record: string)
    requires Inv(s) && Eligible(s.peers, p, s.now)
    requires x != NO_PEER && x !in s.peers && expiration > s.now
    ensures Overtakes(s, Publish(x, expiration, record, s.now, s.now, true, true), p)
  {
    var s' := Apply(s, Publish(x, expiration, record, s.now, s.now, true, true));
    assert p != NO_PEER;
    assert Eligible(s'.peers, x, s'.now);
  }

  /** A crawl of `p` ends and is noted. */
  predicate Recrawls(s: State, step: Step, p: PeerId)
    requires Enabled(s, step)
  {
    step.Finish? && step.save && s.items[step.id].peer == p
  }

  /** Whom a step puts ahead of `p`. */
  function Overtaker(s: State, step: Step, p: PeerId): set<PeerId>
    requires Enabled(s, step) && p in s.peers
  {
    if Overtakes(s, step, p) then {step.p} else {}
  }

  lemma OwnRowStep(s: State, step: Step, p: PeerId)
    requires Inv(s) && Enabled(s, step) && Eligible(s.peers, p, s.now) && !step.OldNodeTick?
    requires Eligible(Apply(s, step).peers, p, Apply(s, step).now) && !Recrawls(s, step, p)
    ensures p != NO_PEER && Apply(s, step).peers[p].lastCrawled == s.peers[p].lastCrawled
  {
  }

  lemma OtherRowStep(s: State, step: Step, p: PeerId, x: PeerId)
    requires Inv(s) && Enabled(s, step) && Eligible(s.peers, p, s.now) && !step.OldNodeTick?
    requires x != p && Eligible(Apply(s, step).peers, x, Apply(s, step).now) && x != NO_PEER
    requires Apply(s, step).peers[x].lastCrawled <= s.peers[p].lastCrawled
    ensures (Overtakes(s, step, p) && x == step.p)
            || (Eligible(s.peers, x, s.now) && s.peers[x].lastCrawled == Apply(s, step).peers[x].lastCrawled)
  {
  }

  /** While `p` stays eligible only an overtaking puts anyone ahead of it; time and other steps never do. */
  lemma PositionStep(s: State, step: Step, p: PeerId)
    requires Inv(s) && Enabled(s, step) && Eligible(s.peers, p, s.now) && Inv(Apply(s, step))
    requires Eligible(Apply(s, step).peers, p, Apply(s, step).now) && !Recrawls(s, step, p)
    ensures Apply(s, step).peers[p].lastCrawled == s.peers[p].lastCrawled
    ensures Ahead(Apply(s, step), p) <= Ahead(s, p) + Overtaker(s, step, p)
  {
    if !step.OldNodeTick? {
      OwnRowStep(s, step, p);
      forall x | x in Ahead(Apply(s, step), p)
        ensures x in Ahead(s, p) + Overtaker(s, step, p)
      {
        assert x != NO_PEER;
        OtherRowStep(s, step, p, x);
      }
    }
  }

  /** `p` is eligible in the states `j` to `k`, and no crawl of it ends in between. */
  ghost predicate StaysInLine(states: seq<State>, steps: seq<Step>, j: nat, k: nat, p: PeerId)
    requires IsRun(states, steps) && j <= k <= |steps|
  {
    && (forall i | j <= i <= k :: Eligible(states[i].peers, p, states[i].now))
    && (forall i | j <= i < k :: !Recrawls(states[i], steps[i], p))
  }

  /** The peers that overtake `p` between the states `j` and `k`. */
  function Overtakers(states: seq<State>, steps: seq<Step>, j: nat, k: nat, p: PeerId): set<PeerId>
    requires j <= k < |states| && k <= |steps|
    requires forall i | j <= i < k :: Enabled(states[i], steps[i]) && p in states[i].peers
    decreases k
  {
    if j == k then {} else Overtakers(states, steps, j, k - 1, p) + Overtaker(states[k - 1], steps[k - 1], p)
  }

  /** While `p` stays eligible, only those that overtook it are newly ahead. */
  lemma {:induction false} OnlyOvertakersGetAhead(states: seq<State>, steps: seq<Step>, j: nat, k: nat, p: PeerId)
    requires IsRun(states, steps) && Inv(states[0]) && j <= k <= |steps|
    requires StaysInLine(states, steps, j, k, p)
    ensures Eligible(states[j].peers, p, states[j].now) && Eligible(states[k].peers, p, states[k].now)
    ensures states[k].peers[p].lastCrawled == states[j].peers[p].lastCrawled
    ensures Ahead(states[k], p) <= Ahead(states[j], p) + Overtakers(states, steps, j, k, p)
    decreases k
  {
    assert Eligible(states[j].peers, p, states[j].now) && Eligible(states[k].peers, p, states[k].now);
    if j < k {
      OnlyOvertakersGetAhead(states, steps, j, k - 1, p);
      InvHolds(states, steps, k - 1);
      InvHolds(states, steps, k);
      assert states[k - 1 + 1] == Apply(states[k - 1], steps[k - 1]);
      PositionStep(states[k - 1], steps[k - 1], p);
    }
  }

  // ----- Consecutive ticks -----

  /** A crawl of `x` finished and was noted between states `j` and `k`. */
  ghost predicate CrawledBetween(states: seq<State>, steps: seq<Step>, j: nat, k: nat, x: PeerId)
    requires IsRun(states, steps) && j <= k <= |steps|
  {
    exists i | j < i < k :: Recrawls(states[i], steps[i], x)
  }

  /** A peer crawled after a tick at which `p` was eligible is behind `p` from then on. */
  lemma CrawledFallsBehind(states: seq<State>, steps: seq<Step>, j: nat, k: nat, p: PeerId, x: PeerId)
    requires IsRun(states, steps) && Inv(states[0]) && j <= k <= |steps|
    requires StaysInLine(states, steps, j, k, p)
    requires Eligible(states[j].peers, x, states[j].now) && CrawledBetween(states, steps, j, k, x)
    ensures p in states[k].peers && x !in Ahead(states[k], p)
  {
    OnlyOvertakersGetAhead(states, steps, j, k, p);
    var i :| j < i < k && Recrawls(states[i], steps[i], x);
    InvHolds(states, steps, j);
    InvHolds(states, steps, i);
    assert x != NO_PEER;
    RowsMoveForward(states, steps, j, i, x);
    assert states[i + 1] == Apply(states[i], steps[i]);
    RowsMoveForward(states, steps, i + 1, k, x);
  }

  /**
    Consecutive ticks, the first with `p` eligible.  As long as no tick has handed
    `p` out it stays eligible, and each tick's batch is crawled before the next.
    After the tick that hands it out nothing is asked for.
   */
  ghost predicate FairTicks(states: seq<State>, steps: seq<Step>, ticks: seq<nat>, p: PeerId)
    requires IsRun(states, steps)
  {
    && |ticks| > 0
    && (forall n | 0 <= n < |ticks| :: ticks[n] < |steps| && steps[ticks[n]].OldNodeTick?)
    && (forall m, n | 0 <= m < n < |ticks| :: ticks[m] < ticks[n])
    && Eligible(states[ticks[0]].peers, p, states[ticks[0]].now)
    && (forall n | 0 <= n < |ticks| - 1 && PassedOver(steps, ticks, n + 1, p) ::
          FairBetween(states, steps, ticks[n], ticks[n + 1], p))
  }

  ghost predicate FairBetween(states: seq<State>, steps: seq<Step>, j: nat, k: nat, p: PeerId)
    requires IsRun(states, steps) && j <= k < |steps| && steps[j].OldNodeTick?
  {
    && StaysInLine(states, steps, j, k, p)
    && forall x | x in steps[j].batch :: CrawledBetween(states, steps, j, k, x)
  }

  /** The first `n` ticks do not hand `p` out. */
  predicate PassedOver(steps: seq<Step>, ticks: seq<nat>, n: nat, p: PeerId)
    requires n <= |ticks| && forall m | 0 <= m < |ticks| :: ticks[m] < |steps| && steps[ticks[m]].OldNodeTick?
  {
    forall m | 0 <= m < n :: p !in steps[ticks[m]].batch
  }

  lemma {:induction false} OvertakersJoin(states: seq<State>, steps: seq<Step>, i: nat, j: nat, k: nat, p: PeerId)
    requires i <= j <= k < |states| && k <= |steps|
    requires forall l | i <= l < k :: Enabled(states[l], steps[l]) && p in states[l].peers
    ensures Overtakers(states, steps, i, k, p) ==
            Overtakers(states, steps, i, j, p) + Overtakers(states, steps, j, k, p)
    decreases k
  {
    if j < k {
      OvertakersJoin(states, steps, i, j, k - 1, p);
    }
  }

  lemma {:induction false} InLineThroughout(states: seq<State>, steps: seq<Step>, ticks: seq<nat>, p: PeerId, n: nat)
    requires IsRun(states, steps) && FairTicks(states, steps, ticks, p) && n < |ticks| && PassedOver(steps, ticks, n, p)
    ensures ticks[0] <= ticks[n] && StaysInLine(states, steps, ticks[0], ticks[n], p)
  {
    if n > 0 {
      InLineThroughout(states, steps, ticks, p, n - 1);
      assert ticks[n - 1] < ticks[n] && FairBetween(states, steps, ticks[n - 1], ticks[n - 1 + 1], p);
    }
  }

  /** What the first `n` ticks handed out, all of it ahead of `p` before and none after. */
  ghost predicate Spent(states: seq<State>, steps: seq<Step>, j: nat, k: nat, p: PeerId, n: nat, handed: set<PeerId>)
    requires IsRun(states, steps) && j <= k <= |steps| && StaysInLine(states, steps, j, k, p)
  {
    && Eligible(states[j].peers, p, states[j].now) && Eligible(states[k].peers, p, states[k].now)
    && |handed| == BATCH * n
    && handed <= Ahead(states[j], p) + Overtakers(states, steps, j, k, p)
    && AllCrawled(states, steps, k, handed, p)
  }

  ghost predicate AllCrawled(states: seq<State>, steps: seq<Step>, k: nat, handed: set<PeerId>, p: PeerId)
    requires IsRun(states, steps) && k <= |steps|
  {
    forall x | x in handed :: HandedOutAndCrawled(states, steps, k, x, p)
  }

  /** Since some earlier state in which both were eligible, `x` has been crawled and `p` has not. */
  ghost predicate HandedOutAndCrawled(states: seq<State>, steps: seq<Step>, k: nat, x: PeerId, p: PeerId)
    requires IsRun(states, steps) && k <= |steps|
  {
    exists i | 0 <= i <= k ::
      && StaysInLine(states, steps, i, k, p)
      && Eligible(states[i].peers, x, states[i].now) && CrawledBetween(states, steps, i, k, x)
  }

  lemma SpentIsBehind(states: seq<State>, steps: seq<Step>, k: nat, x: PeerId, p: PeerId)
    requires IsRun(states, steps) && Inv(states[0]) && k <= |steps| && HandedOutAndCrawled(states, steps, k, x, p)
    ensures p in states[k].peers && x !in Ahead(states[k], p)
  {
    var i :| 0 <= i <= k && StaysInLine(states, steps, i, k, p)
             && Eligible(states[i].peers, x, states[i].now) && CrawledBetween(states, steps, i, k, x);
    CrawledFallsBehind(states, steps, i, k, p, x);
  }

  lemma SpentLater(states: seq<State>, steps: seq<Step>, j: nat, k: nat, x: PeerId, p: PeerId)
    requires IsRun(states, steps) && j <= k <= |steps| && HandedOutAndCrawled(states, steps, j, x, p)
    requires StaysInLine(states, steps, j, k, p)
    ensures HandedOutAndCrawled(states, steps, k, x, p)
  {
    var i :| 0 <= i <= j && StaysInLine(states, steps, i, j, p)
             && Eligible(states[i].peers, x, states[i].now) && CrawledBetween(states, steps, i, j, x);
    var l :| i < l < j && Recrawls(states[l], steps[l], x);
    assert i < l < k && Recrawls(states[l], steps[l], x);
    assert CrawledBetween(states, steps, i, k, x) && StaysInLine(states, steps, i, k, p);
  }

  /** At a tick that passes `p` over, what was handed out before is not ahead and the batch is. */
  lemma BatchNotSpent(states: seq<State>, steps: seq<Step>, i: nat, j: nat, p: PeerId, n: nat, handed: set<PeerId>)
    requires IsRun(states, steps) && Inv(states[0]) && i <= j < |steps| && steps[j].OldNodeTick?
    requires StaysInLine(states, steps, i, j, p) && p !in steps[j].batch
    requires Spent(states, steps, i, j, p, n, handed)
    ensures handed !! Elements(steps[j].batch) && |handed + Elements(steps[j].batch)| == BATCH * (n + 1)
    ensures Elements(steps[j].batch) <= Ahead(states[i], p) + Overtakers(states, steps, i, j, p)
  {
    var batch := steps[j].batch;
    LeftOutBehind(states[j].peers, EligiblePeers(states[j].peers, states[j].now), BATCH, batch, p);
    OnlyOvertakersGetAhead(states, steps, i, j, p);
    forall x | x in handed
      ensures x !in Elements(batch)
    {
      SpentIsBehind(states, steps, j, x, p);
    }
  }

  lemma BatchIsCrawled(states: seq<State>, steps: seq<Step>, j: nat, k: nat, p: PeerId, handed: set<PeerId>)
    requires IsRun(states, steps) && j <= k < |steps| && steps[j].OldNodeTick?
    requires FairBetween(states, steps, j, k, p) && AllCrawled(states, steps, j, handed, p)
    ensures AllCrawled(states, steps, k, handed + Elements(steps[j].batch), p)
  {
    forall x | x in handed
      ensures HandedOutAndCrawled(states, steps, k, x, p)
    {
      SpentLater(states, steps, j, k, x, p);
    }
    forall x | x in steps[j].batch
      ensures HandedOutAndCrawled(states, steps, k, x, p)
    {
      BatchIsEligible(states[j].peers, states[j].now, BATCH, steps[j].batch, x);
      assert CrawledBetween(states, steps, j, k, x);
    }
  }

  lemma InLineJoins(states: seq<State>, steps: seq<Step>, i: nat, j: nat, k: nat, p: PeerId)
    requires IsRun(states, steps) && i <= j <= k <= |steps|
    requires StaysInLine(states, steps, i, j, p) && StaysInLine(states, steps, j, k, p)
    ensures StaysInLine(states, steps, i, k, p)
    ensures Eligible(states[i].peers, p, states[i].now) && Eligible(states[k].peers, p, states[k].now)
  {
  }

  /** One more tick passes `p` over, and its batch is crawled before the next. */
  lemma SpendTick(states: seq<State>, steps: seq<Step>, i: nat, j: nat, k: nat, p: PeerId, n: nat, handed: set<PeerId>)
    requires IsRun(states, steps) && Inv(states[0]) && i <= j <= k < |steps| && steps[j].OldNodeTick?
    requires StaysInLine(states, steps, i, j, p) && FairBetween(states, steps, j, k, p) && p !in steps[j].batch
    requires Spent(states, steps, i, j, p, n, handed)
    ensures StaysInLine(states, steps, i, k, p) &&
            Spent(states, steps, i, k, p, n + 1, handed + Elements(steps[j].batch))
  {
    BatchNotSpent(states, steps, i, j, p, n, handed);
    InLineJoins(states, steps, i, j, k, p);
    OvertakersJoin(states, steps, i, j, k, p);
    BatchIsCrawled(states, steps, j, k, p, handed);
  }

  lemma {:induction false} SpendTicks(states: seq<State>, steps: seq<Step>, ticks: seq<nat>, p: PeerId, n: nat)
    returns (handed: set<PeerId>)
    requires IsRun(states, steps) && Inv(states[0]) && FairTicks(states, steps, ticks, p)
    requires n < |ticks| && PassedOver(steps, ticks, n, p)
    ensures ticks[0] <= ticks[n] && StaysInLine(states, steps, ticks[0], ticks[n], p)
    ensures Spent(states, steps, ticks[0], ticks[n], p, n, handed)
  {
    InLineThroughout(states, steps, ticks, p, n);
    if n == 0 {
      handed := {};
    } else {
      var before := SpendTicks(states, steps, ticks, p, n - 1);
      assert FairBetween(states, steps, ticks[n - 1], ticks[n - 1 + 1], p);
      SpendTick(states, steps, ticks[0], ticks[n - 1], ticks[n], p, n - 1, before);
      handed := before + Elements(steps[ticks[n - 1]].batch);
    }
  }

  /**
    Every tick that passes `p` over uses up ten of those that were ahead of it at
    the first tick or have overtaken it since.
   */
  lemma TenFewerEachTick(states: seq<State>, steps: seq<Step>, ticks: seq<nat>, p: PeerId, n: nat)
    requires IsRun(states, steps) && Inv(states[0]) && FairTicks(states, steps, ticks, p)
    requires n < |ticks| && PassedOver(steps, ticks, n, p)
    ensures ticks[0] <= ticks[n] && StaysInLine(states, steps, ticks[0], ticks[n], p)
    ensures p in states[ticks[n]].peers && p in states[ticks[0]].peers
    ensures |Ahead(states[ticks[n]], p)| + BATCH * n <=
            |Ahead(states[ticks[0]], p) + Overtakers(states, steps, ticks[0], ticks[n], p)|
  {
    var handed := SpendTicks(states, steps, ticks, p, n);
    OnlyOvertakersGetAhead(states, steps, ticks[0], ticks[n], p);
    var ahead := Ahead(states[ticks[n]], p);
    forall x | x in handed
      ensures x !in ahead
    {
      SpentIsBehind(states, steps, ticks[n], x, p);
    }
    assert ahead !! handed;
    SubsetSize(ahead + handed, Ahead(states[ticks[0]], p) + Overtakers(states, steps, ticks[0], ticks[n], p));
  }

  /** If no tick hands `p` out, at most `o` peers overtake it from the first tick to the last. */
  ghost predicate OvertakenAtMost(states: seq<State>, steps: seq<Step>, ticks: seq<nat>, p: PeerId, o: nat)
    requires IsRun(states, steps) && FairTicks(states, steps, ticks, p)
  {
    PassedOver(steps, ticks, |ticks|, p) ==>
      var n := |ticks| - 1;
      InLineThroughout(states, steps, ticks, p, n);
      |Overtakers(states, steps, ticks[0], ticks[n], p)| <= o
  }

  /**
    With `k` eligible peers ahead of it or level at the first tick, a peer that `o`
    others overtake until the last is handed out within `(k + o) / 10 + 1` ticks.
   */
  lemma NoStarvation(states: seq<State>, steps: seq<Step>, ticks: seq<nat>, p: PeerId, o: nat)
    requires IsRun(states, steps) && Inv(states[0]) && FairTicks(states, steps, ticks, p)
    requires p in states[ticks[0]].peers && |ticks| == (|Ahead(states[ticks[0]], p)| + o) / BATCH + 1
    requires OvertakenAtMost(states, steps, ticks, p, o)
    ensures exists n | 0 <= n < |ticks| :: p in steps[ticks[n]].batch
  {
    if forall n | 0 <= n < |ticks| :: p !in steps[ticks[n]].batch {
      var n := |ticks| - 1;
      TenFewerEachTick(states, steps, ticks, p, n);
      UnionSize(Ahead(states[ticks[0]], p), Overtakers(states, steps, ticks[0], ticks[n], p));
      assert Enabled(states[ticks[n]], OldNodeTick(steps[ticks[n]].batch, steps[ticks[n]].pin));
      assert CanBePassedOver(states[ticks[n]], p);
      PassedOverExactly(states[ticks[n]], p);
      assert false;
    }
  }
}
