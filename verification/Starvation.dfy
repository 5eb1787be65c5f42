/**
  The old-node loop can pass a peer over for ever: from any point of any run at
  which a peer is eligible, a run with any number of ticks a minute apart that never
  hands it out, although every batch, and every job that entered on the way, is
  crawled.
 */
module Starvation {
  import opened Base
  import opened Peers
  import opened Query
  import opened PeerMachine
  import opened Scheduler

  datatype Run = Run(states: seq<State>, steps: seq<Step>) {
    ghost predicate Valid() {
      IsRun(states, steps) && Inv(states[0])
    }

    function Last(): State
      requires |states| > 0
    {
      states[|states| - 1]
    }
  }

  ghost predicate Continues(r: Run, r': Run) {
    r.states <= r'.states && r.steps <= r'.steps
  }

  /** The step neither hands `p` out nor ends a crawl of it. */
  predicate Spares(s: State, step: Step, p: PeerId)
    requires Enabled(s, step)
  {
    !(step.OldNodeTick? && p in step.batch) && !Recrawls(s, step, p)
  }

  /** From state `from` on `p` is eligible, and is neither handed out nor crawled. */
  ghost predicate Spared(r: Run, from: nat, p: PeerId) {
    && r.Valid() && from <= |r.steps|
    && (forall k | from <= k <= |r.steps| :: Eligible(r.states[k].peers, p, r.states[k].now))
    && (forall k | from <= k < |r.steps| :: Spares(r.states[k], r.steps[k], p))
  }

  lemma LastIsOk(r: Run)
    requires r.Valid()
    ensures Inv(r.Last())
  {
    InvHolds(r.states, r.steps, |r.steps|);
  }

  lemma ValidFromStart(r: Run)
    requires IsRun(r.states, r.steps) && IsStart(r.states[0])
    ensures r.Valid() && Inv(r.Last())
  {
    InvReachable(r.states, r.steps, |r.steps|);
  }

  /** One more step. */
  lemma Prolong(r: Run, step: Step) returns (r': Run)
    requires r.Valid() && Enabled(r.Last(), step)
    ensures r' == Run(r.states + [Apply(r.Last(), step)], r.steps + [step])
    ensures r'.Valid() && Continues(r, r') && r'.Last() == Apply(r.Last(), step) && Inv(r'.Last())
  {
    r' := Run(r.states + [Apply(r.Last(), step)], r.steps + [step]);
    RunGoesOn(r.states, r.steps, step);
    LastIsOk(r');
  }

  lemma Extend(r: Run, from: nat, p: PeerId, step: Step) returns (r': Run)
    requires Spared(r, from, p) && Enabled(r.Last(), step) && Spares(r.Last(), step, p)
    requires Eligible(Apply(r.Last(), step).peers, p, Apply(r.Last(), step).now)
    ensures r' == Run(r.states + [Apply(r.Last(), step)], r.steps + [step])
    ensures Spared(r', from, p) && Continues(r, r') && r'.Last() == Apply(r.Last(), step) && Inv(r'.Last())
  {
    r' := Prolong(r, step);
    forall k | from <= k < |r'.steps|
      ensures Spares(r'.states[k], r'.steps[k], p)
    {
      if k < |r.steps| {
        assert r'.states[k] == r.states[k] && r'.steps[k] == r.steps[k];
      }
    }
  }

  /** The row of `p` and the time are as they were. */
  predicate SamePlace(s: State, s': State, p: PeerId)
    requires p in s.peers
  {
    p in s'.peers && s'.peers[p] == s.peers[p] && s'.now == s.now
  }

  /** None of the items from number `first` on is for `p`. */
  predicate NoneFor(s: State, first: nat, p: PeerId) {
    first <= s.nextItem && forall id | id in s.items && first <= id :: s.items[id].peer != p
  }

  /** What is in flight in `s'` and has a number that `s` had given out was in flight in `s`. */
  predicate NoneReturns(s: State, s': State) {
    s.nextItem <= s'.nextItem && forall id | id in s'.items && id < s.nextItem :: id in s.items
  }

  // ----- Newcomers -----

  lemma {:induction false} UpperBound(s: set<nat>) returns (b: nat)
    ensures forall x :: x in s ==> x < b
  {
    b := 0;
    if s != {} {
      var x :| x in s;
      b := UpperBound(s - {x});
      b := if x < b then b else x + 1;
      assert forall y :: y in s && y != x ==> y in s - {x};
    }
  }

  lemma NewcomerStep(s: State, p: PeerId, x: PeerId, xs: set<PeerId>, expiration: Time)
    requires Inv(s) && Eligible(s.peers, p, s.now) && xs <= Ahead(s, p)
    requires x != NO_PEER && x !in s.peers && expiration > s.now
    ensures var step := Publish(x, expiration, "", s.now, s.now, true, true);
            && Eligible(Apply(s, step).peers, p, Apply(s, step).now) && SamePlace(s, Apply(s, step), p)
            && xs + {x} <= Ahead(Apply(s, step), p)
            && Apply(s, step).items == s.items[s.nextItem := Item(x, Waiting, false)]
            && Apply(s, step).nextItem == s.nextItem + 1
  {
    NewcomerOvertakes(s, p, x, expiration, "");
  }

  /** One more unknown peer publishes its first record. */
  lemma Newcomer(r: Run, from: nat, p: PeerId, xs: set<PeerId>) returns (r': Run, x: PeerId)
    requires Spared(r, from, p) && xs <= Ahead(r.Last(), p)
    ensures Spared(r', from, p) && Continues(r, r') && SamePlace(r.Last(), r'.Last(), p)
    ensures x !in xs && xs + {x} <= Ahead(r'.Last(), p)
    ensures forall first :: NoneFor(r.Last(), first, p) ==> NoneFor(r'.Last(), first, p)
    ensures NoneReturns(r.Last(), r'.Last())
  {
    var s := r.Last();
    LastIsOk(r);
    var b := UpperBound(s.peers.Keys);
    x := b + 1;
    assert x !in s.peers.Keys;
    NewcomerStep(s, p, x, xs, s.now + 1);
    r' := Extend(r, from, p, Publish(x, s.now + 1, "", s.now, s.now, true, true));
  }

  lemma {:induction false} Newcomers(r: Run, from: nat, p: PeerId, n: nat) returns (r': Run, xs: set<PeerId>)
    requires Spared(r, from, p)
    ensures Spared(r', from, p) && Continues(r, r') && SamePlace(r.Last(), r'.Last(), p)
    ensures |xs| == n && xs <= Ahead(r'.Last(), p)
    ensures NoneFor(r'.Last(), r.Last().nextItem, p) && NoneReturns(r.Last(), r'.Last())
  {
    if n == 0 {
      LastIsOk(r);
      r', xs := r, {};
    } else {
      var r1, before := Newcomers(r, from, p, n - 1);
      var x;
      r', x := Newcomer(r1, from, p, before);
      xs := before + {x};
    }
  }

  // ----- Crawling what is in flight -----

  /** A crawl of `x` has ended and was noted since step `j`. */
  ghost predicate CrawledSince(r: Run, j: nat, x: PeerId) {
    r.Valid() && exists k | j <= k < |r.steps| :: Recrawls(r.states[k], r.steps[k], x)
  }

  lemma StillCrawled(r: Run, r': Run, j: nat, x: PeerId)
    requires CrawledSince(r, j, x) && r'.Valid() && Continues(r, r')
    ensures CrawledSince(r', j, x)
  {
    var k :| j <= k < |r.steps| && Recrawls(r.states[k], r.steps[k], x);
    assert r'.states[k] == r.states[k] && r'.steps[k] == r.steps[k];
  }

  function NextStage(id: nat, item: Item, now: Time): Step {
    match item.stage
    case Snapshot => QueueEntry(id)
    case Waiting => Take(id)
    case Running => Finish(id, now, now, true)
  }

  lemma StageStep(s: State, p: PeerId, id: nat)
    requires Inv(s) && Eligible(s.peers, p, s.now) && id in s.items && s.items[id].peer != p
    ensures var step := NextStage(id, s.items[id], s.now);
            && Enabled(s, step) && Spares(s, step, p) && SamePlace(s, Apply(s, step), p)
            && Eligible(Apply(s, step).peers, p, Apply(s, step).now)
            && Apply(s, step).nextItem == s.nextItem
            && Apply(s, step).items - {id} == s.items - {id}
            && (if s.items[id].stage == Running then id !in Apply(s, step).items else
                  id in Apply(s, step).items && Apply(s, step).items[id].peer == s.items[id].peer
                  && Rank(Apply(s, step).items[id].stage) == Rank(s.items[id].stage) + 1)
  {
  }

  /** An item is brought to its end. */
  lemma {:induction false} CrawlItem(r: Run, from: nat, p: PeerId, id: nat) returns (r': Run)
    requires Spared(r, from, p) && id in r.Last().items && r.Last().items[id].peer != p
    ensures Spared(r', from, p) && Continues(r, r') && SamePlace(r.Last(), r'.Last(), p)
    ensures r'.Last().items == r.Last().items - {id} && r'.Last().nextItem == r.Last().nextItem
    ensures CrawledSince(r', |r.steps|, r.Last().items[id].peer)
    decreases 2 - Rank(r.Last().items[id].stage)
  {
    var s := r.Last();
    LastIsOk(r);
    StageStep(s, p, id);
    var step := NextStage(id, s.items[id], s.now);
    var r1 := Extend(r, from, p, step);
    if step.Finish? {
      r' := r1;
      assert r'.states[|r.steps|] == s && r'.steps[|r.steps|] == step;
      assert Recrawls(r'.states[|r.steps|], r'.steps[|r.steps|], s.items[id].peer);
    } else {
      r' := CrawlItem(r1, from, p, id);
      Earlier(r', |r.steps|, |r1.steps|, s.items[id].peer);
    }
  }

  lemma Earlier(r: Run, i: nat, j: nat, x: PeerId)
    requires CrawledSince(r, j, x) && i <= j
    ensures CrawledSince(r, i, x)
  {
  }

  /** The items of `s` numbered from `first` up to `hi` have been crawled since step `j`. */
  ghost predicate RangeCrawled(s: State, r: Run, j: nat, first: nat, hi: nat) {
    forall id | first <= id < hi && id in s.items :: CrawledSince(r, j, s.items[id].peer)
  }

  lemma RangeStaysCrawled(s: State, r: Run, r': Run, j: nat, first: nat, hi: nat)
    requires RangeCrawled(s, r, j, first, hi) && r'.Valid() && Continues(r, r')
    ensures RangeCrawled(s, r', j, first, hi)
  {
    forall id | first <= id < hi && id in s.items
      ensures CrawledSince(r', j, s.items[id].peer)
    {
      StillCrawled(r, r', j, s.items[id].peer);
    }
  }

  /** The run `r'` continues `r` by crawling its items numbered from `first` up to `hi`. */
  ghost predicate Swept(r: Run, r': Run, from: nat, p: PeerId, first: nat, hi: nat)
    requires Spared(r, from, p)
  {
    && Spared(r', from, p) && Continues(r, r') && SamePlace(r.Last(), r'.Last(), p)
    && r'.Last().nextItem == r.Last().nextItem
    && (forall id :: id in r'.Last().items <==> id in r.Last().items && !(first <= id < hi))
    && (forall id :: id in r'.Last().items ==> r'.Last().items[id] == r.Last().items[id])
    && RangeCrawled(r.Last(), r', |r.steps|, first, hi)
  }

  lemma RangeNext(s: State, r: Run, r': Run, j: nat, first: nat, id: nat)
    requires RangeCrawled(s, r, j, first, id) && r'.Valid() && Continues(r, r')
    requires id in s.items ==> CrawledSince(r', j, s.items[id].peer)
    ensures RangeCrawled(s, r', j, first, id + 1)
  {
    RangeStaysCrawled(s, r, r', j, first, id);
  }

  lemma SweepNext(r: Run, r1: Run, from: nat, p: PeerId, first: nat, id: nat) returns (r': Run)
    requires Spared(r, from, p) && first <= id && NoneFor(r.Last(), first, p) && Swept(r, r1, from, p, first, id)
    ensures Swept(r, r', from, p, first, id + 1)
  {
    if id in r1.Last().items {
      r' := CrawlItem(r1, from, p, id);
      Earlier(r', |r.steps|, |r1.steps|, r.Last().items[id].peer);
    } else {
      r' := r1;
    }
    RangeNext(r.Last(), r1, r', |r.steps|, first, id);
  }

  /** Every item numbered from `first` up to `hi` is brought to its end. */
  lemma {:induction false} CrawlAll(r: Run, from: nat, p: PeerId, first: nat, hi: nat) returns (r': Run)
    requires Spared(r, from, p) && first <= hi && NoneFor(r.Last(), first, p)
    ensures Swept(r, r', from, p, first, hi)
    decreases hi
  {
    if hi == first {
      r' := r;
    } else {
      var r1 := CrawlAll(r, from, p, first, hi - 1);
      r' := SweepNext(r, r1, from, p, first, hi - 1);
    }
  }

  // ----- One round: newcomers, a tick, the crawls, and a minute -----

  /** Ten newcomers, and then a tick that passes `p` over. */
  lemma TickPast(r: Run, from: nat, p: PeerId) returns (r': Run, tick: nat)
    requires Spared(r, from, p)
    ensures Spared(r', from, p) && Continues(r, r') && SamePlace(r.Last(), r'.Last(), p)
    ensures |r.steps| <= tick && |r'.steps| == tick + 1 && r'.steps[tick].OldNodeTick?
    ensures r'.states[tick].now == r.Last().now
    ensures NoneFor(r'.Last(), r.Last().nextItem, p) && NoneReturns(r.Last(), r'.Last())
    ensures forall x | x in r'.steps[tick].batch :: InFlightSince(r'.Last(), r.Last().nextItem, x)
  {
    var r1, xs := Newcomers(r, from, p, BATCH);
    var s := r1.Last();
    tick := |r1.steps|;
    assert Eligible(r1.states[tick].peers, p, r1.states[tick].now);
    SubsetSize(xs, Ahead(s, p));
    PassedOverExactly(s, p);
    var batch, pin :| Enabled(s, OldNodeTick(batch, pin)) && p !in batch;
    r' := Extend(r1, from, p, OldNodeTick(batch, pin));
    assert r'.states[tick] == s;
    SnapshotFits(s, batch, pin, r.Last().nextItem, p);
  }

  /** Some item from number `first` on is for `x`. */
  predicate InFlightSince(s: State, first: nat, x: PeerId) {
    exists id :: id in s.items && first <= id < s.nextItem && s.items[id].peer == x
  }

  lemma SnapshotFits(s: State, batch: seq<PeerId>, pin: bool, first: nat, p: PeerId)
    requires NoneFor(s, first, p) && p !in batch
    ensures var s' := s.(items := s.items + SnapshotItems(s.nextItem, batch, pin), nextItem := s.nextItem + |batch|);
            NoneFor(s', first, p) && NoneReturns(s, s') && forall x | x in batch :: InFlightSince(s', first, x)
  {
    var items := SnapshotItems(s.nextItem, batch, pin);
    var s' := s.(items := s.items + items, nextItem := s.nextItem + |batch|);
    forall id | id in s'.items && first <= id
      ensures s'.items[id].peer != p
    {
      assert id in items ==> items[id].peer in batch;
    }
    forall x | x in batch
      ensures InFlightSince(s', first, x)
    {
      var i :| 0 <= i < |batch| && batch[i] == x;
      var id := s.nextItem + i;
      assert id in items && s'.items[id].peer == x;
    }
  }

  /** `p` connects once more, and a minute passes. */
  lemma MinutePasses(r: Run, from: nat, p: PeerId) returns (r': Run)
    requires Spared(r, from, p) && r.Last().peers[p].expiration > r.Last().now + MINUTE
    ensures Spared(r', from, p) && Continues(r, r')
    ensures p in r'.Last().peers && r'.Last().peers[p].expiration == r.Last().peers[p].expiration
    ensures r'.Last().now == r.Last().now + MINUTE
    ensures r'.Last().items == r.Last().items
  {
    LastIsOk(r);
    var now := r.Last().now;
    var r1 := Extend(r, from, p, Connection(p, now, now));
    r' := Extend(r1, from, p, Advance(now + MINUTE));
  }

  /** The batch of the tick has been crawled. */
  ghost predicate BatchCrawled(r: Run, tick: nat, end: nat) {
    r.Valid() && tick < end <= |r.steps| && r.steps[tick].OldNodeTick?
    && forall x | x in r.steps[tick].batch :: CrawledBetween(r.states, r.steps, tick, end, x)
  }

  lemma {:induction false} Round(r: Run, from: nat, p: PeerId) returns (r': Run, tick: nat)
    requires Spared(r, from, p) && r.Last().peers[p].expiration > r.Last().now + MINUTE
    ensures Spared(r', from, p) && Continues(r, r')
    ensures |r.steps| <= tick && BatchCrawled(r', tick, |r'.steps|) && r'.states[tick].now == r.Last().now
    ensures p in r'.Last().peers && r'.Last().peers[p].expiration == r.Last().peers[p].expiration
    ensures r'.Last().now == r.Last().now + MINUTE
    ensures r'.Last().items.Keys <= r.Last().items.Keys
  {
    var r1;
    r1, tick := TickPast(r, from, p);
    LastIsOk(r1);
    var r2 := CrawlAll(r1, from, p, r.Last().nextItem, r1.Last().nextItem);
    r' := MinutePasses(r2, from, p);
    assert r'.steps[tick] == r1.steps[tick] && r'.states[tick] == r1.states[tick];
    forall id | id in r'.Last().items
      ensures id in r.Last().items
    {
      assert id in r2.Last().items && id in r1.Last().items;
    }
    forall x | x in r'.steps[tick].batch
      ensures CrawledBetween(r'.states, r'.steps, tick, |r'.steps|, x)
    {
      assert InFlightSince(r1.Last(), r.Last().nextItem, x);
      StillCrawled(r2, r', |r1.steps|, x);
      var k :| |r1.steps| <= k < |r'.steps| && Recrawls(r'.states[k], r'.steps[k], x);
      assert tick < k < |r'.steps|;
    }
  }

  // ----- Any number of rounds -----

  /** Ticks a minute apart, each batch crawled before the next tick, or by the end. */
  ghost predicate MinuteTicks(r: Run, ticks: seq<nat>, t0: Time) {
    && r.Valid()
    && (forall m | 0 <= m < |ticks| ::
          BatchCrawled(r, ticks[m], |r.steps|) && r.states[ticks[m]].now == t0 + m * MINUTE)
    && (forall m | 0 <= m < |ticks| - 1 :: BatchCrawled(r, ticks[m], ticks[m + 1]))
  }

  lemma CrawledStays(r: Run, r': Run, tick: nat, end: nat, later: nat)
    requires BatchCrawled(r, tick, end) && r'.Valid() && Continues(r, r') && end <= later <= |r'.steps|
    ensures BatchCrawled(r', tick, later) && r'.states[tick] == r.states[tick]
  {
    forall x | x in r.steps[tick].batch
      ensures CrawledBetween(r'.states, r'.steps, tick, later, x)
    {
      assert CrawledBetween(r.states, r.steps, tick, end, x);
      var k :| tick < k < end && Recrawls(r.states[k], r.steps[k], x);
      assert r'.states[k] == r.states[k] && r'.steps[k] == r.steps[k];
    }
  }

  lemma MinuteTicksNext(r: Run, r': Run, ticks: seq<nat>, tick: nat, t0: Time)
    requires MinuteTicks(r, ticks, t0) && r'.Valid() && Continues(r, r')
    requires |r.steps| <= tick && BatchCrawled(r', tick, |r'.steps|) && r'.states[tick].now == t0 + |ticks| * MINUTE
    ensures MinuteTicks(r', ticks + [tick], t0)
  {
    var all := ticks + [tick];
    forall m | 0 <= m < |ticks|
      ensures BatchCrawled(r', all[m], |r'.steps|) && r'.states[all[m]].now == t0 + m * MINUTE
      ensures BatchCrawled(r', all[m], all[m + 1])
    {
      CrawledStays(r, r', ticks[m], |r.steps|, |r'.steps|);
      if m < |ticks| - 1 {
        CrawledStays(r, r', ticks[m], ticks[m + 1], ticks[m + 1]);
      } else {
        CrawledStays(r, r', ticks[m], |r.steps|, tick);
      }
    }
  }

  lemma OneMoreMinute(n: nat)
    ensures (n + 1) * MINUTE == n * MINUTE + MINUTE
  {
  }

  lemma {:induction false} Rounds(r: Run, from: nat, p: PeerId, n: nat) returns (r': Run, ticks: seq<nat>)
    requires Spared(r, from, p) && r.Last().peers[p].expiration > r.Last().now + n * MINUTE
    ensures Spared(r', from, p) && Continues(r, r') && |ticks| == n
    ensures MinuteTicks(r', ticks, r.Last().now) && (n > 0 ==> ticks[0] >= |r.steps|)
    ensures p in r'.Last().peers && r'.Last().peers[p].expiration == r.Last().peers[p].expiration
    ensures r'.Last().now == r.Last().now + n * MINUTE
    ensures r'.Last().items.Keys <= r.Last().items.Keys
  {
    if n == 0 {
      r', ticks := r, [];
    } else {
      OneMoreMinute(n - 1);
      var r1, before := Rounds(r, from, p, n - 1);
      var tick;
      r', tick := Round(r1, from, p);
      MinuteTicksNext(r1, r', before, tick, r.Last().now);
      ticks := before + [tick];
    }
  }

  /**
    Starvation.  Whatever has happened so far, a peer that is eligible now can be
    passed over by `n` ticks in a row, for any `n` its record outlasts.  The ticks are
    fair, and a minute apart; at the end nothing is in flight that was not before.
   */
  lemma StarvesForever(r: Run, p: PeerId, n: nat) returns (r': Run, ticks: seq<nat>)
    requires r.Valid() && Eligible(r.Last().peers, p, r.Last().now)
    requires n > 0 && r.Last().peers[p].expiration > r.Last().now + n * MINUTE
    ensures Continues(r, r') && Spared(r', |r.steps|, p)
    ensures |ticks| == n && FairTicks(r'.states, r'.steps, ticks, p) && PassedOver(r'.steps, ticks, n, p)
    ensures r'.Last().items.Keys <= r.Last().items.Keys
    ensures forall m | 0 <= m < n :: ticks[m] >= |r.steps| && r'.states[ticks[m]].now == r.Last().now + m * MINUTE
  {
    r', ticks := Rounds(r, |r.steps|, p, n);
    forall i, j | 0 <= i < j < n
      ensures ticks[i] < ticks[j]
    {
      TicksAscend(r', ticks, r.Last().now, i, j);
    }
    forall m | 0 <= m < n
      ensures p !in r'.steps[ticks[m]].batch && ticks[m] >= |r.steps|
    {
      assert Spares(r'.states[ticks[m]], r'.steps[ticks[m]], p);
    }
    forall m | 0 <= m < n - 1
      ensures FairBetween(r'.states, r'.steps, ticks[m], ticks[m + 1], p)
    {
      assert BatchCrawled(r', ticks[m], ticks[m + 1]);
      RunInLine(r', |r.steps|, ticks[m], ticks[m + 1], p);
    }
    assert Eligible(r'.states[ticks[0]].peers, p, r'.states[ticks[0]].now);
  }

  lemma RunInLine(r: Run, from: nat, j: nat, k: nat, p: PeerId)
    requires Spared(r, from, p) && from <= j <= k <= |r.steps|
    ensures StaysInLine(r.states, r.steps, j, k, p)
  {
    forall i | j <= i < k
      ensures !Recrawls(r.states[i], r.steps[i], p)
    {
      assert Spares(r.states[i], r.steps[i], p);
    }
  }

  lemma {:induction false} TicksAscend(r: Run, ticks: seq<nat>, t0: Time, m: nat, n: nat)
    requires MinuteTicks(r, ticks, t0) && m < n < |ticks|
    ensures ticks[m] < ticks[n]
    decreases n
  {
    assert BatchCrawled(r, ticks[n - 1], ticks[n - 1 + 1]);
    if m < n - 1 {
      TicksAscend(r, ticks, t0, m, n - 1);
    }
  }

  /** A week after its first record was crawled, with nothing in flight, a peer is eligible again. */
  lemma Beginning(p: PeerId, expiration: Time) returns (r: Run)
    requires p != NO_PEER && expiration > RECRAWL_AFTER + 1
    ensures r.Valid() && IsStart(r.states[0]) && r.Last().items == map[] && r.Last().now == RECRAWL_AFTER + 1
    ensures Eligible(r.Last().peers, p, r.Last().now) && r.Last().peers[p].expiration == expiration
  {
    var s0 := State(map[], 0, map[], 0);
    var s1 := Apply(s0, Publish(p, expiration, "", 0, 0, true, true));
    var s2 := Apply(s1, Take(0));
    var s3 := Apply(s2, Finish(0, 0, 0, true));
    var s4 := Apply(s3, Advance(RECRAWL_AFTER + 1));
    var steps := [Publish(p, expiration, "", 0, 0, true, true), Take(0), Finish(0, 0, 0, true),
                  Advance(RECRAWL_AFTER + 1)];
    r := Run([s0, s1, s2, s3, s4], steps);
    ValidFromStart(r);
  }

  /** So the hypothesis can be met in a run from the start. */
  lemma StarvesFromStart(p: PeerId, n: nat) returns (r: Run, ticks: seq<nat>)
    requires p != NO_PEER && n > 0
    ensures IsRun(r.states, r.steps) && IsStart(r.states[0])
    ensures |ticks| == n && FairTicks(r.states, r.steps, ticks, p) && PassedOver(r.steps, ticks, n, p)
  {
    OneMoreMinute(n);
    var first := Beginning(p, RECRAWL_AFTER + 1 + (n + 1) * MINUTE);
    r, ticks := StarvesForever(first, p, n);
    assert r.states[0] == first.states[0];
  }
}
