/**
  The queries of the two background loops: the peers that meet the conditions,
  crawled longest ago first, up to a limit.  Ties may come in any order.
 */
module Query {
  import opened Base
  import opened Peers

  const RECRAWL_AFTER: Time := 7 * DAY
  const FORGET_AFTER: Time := 90 * DAY
  const BATCH: nat := 10

  /** The conditions of the old-node loop. */
  predicate Eligible(t: Table, p: PeerId, now: Time) {
    && p in t && !t[p].banned
    && t[p].expiration > now
    && t[p].lastCrawled < now - RECRAWL_AFTER
    && t[p].lastSeen > now - FORGET_AFTER
  }

  function EligiblePeers(t: Table, now: Time): set<PeerId> {
    set p | p in t && Eligible(t, p, now)
  }

  /** The conditions of the hourly loop. */
  predicate Fresh(t: Table, p: PeerId, now: Time) {
    && p in t
    && t[p].expiration > now
    && t[p].lastSeen > now - FORGET_AFTER
  }

  function FreshPeers(t: Table, now: Time): set<PeerId> {
    set p | p in t && Fresh(t, p, now)
  }

  /** The `limit` members of `s` crawled longest ago, oldest first, ties in any order. */
  predicate IsOldestOf(t: Table, s: set<PeerId>, limit: nat, batch: seq<PeerId>)
    requires s <= t.Keys
  {
    && |batch| <= limit
    && (forall i | 0 <= i < |batch| :: batch[i] in s)
    && (forall i, j | 0 <= i < j < |batch| ::
          batch[i] != batch[j] && t[batch[i]].lastCrawled <= t[batch[j]].lastCrawled)
    && (forall p | p in s && p !in batch ::
          |batch| == limit && forall i | 0 <= i < |batch| :: t[batch[i]].lastCrawled <= t[p].lastCrawled)
  }

  /** The answer of the old-node loop's query. */
  predicate IsOldestBatch(t: Table, now: Time, limit: nat, batch: seq<PeerId>) {
    IsOldestOf(t, EligiblePeers(t, now), limit, batch)
  }

  lemma BatchIsEligible(t: Table, now: Time, limit: nat, batch: seq<PeerId>, p: PeerId)
    requires IsOldestBatch(t, now, limit, batch) && p in batch
    ensures Eligible(t, p, now)
  {
    assert p in EligiblePeers(t, now);
  }

  // ----- Answers exist -----

  lemma {:induction false} OldestIn(t: Table, s: set<PeerId>) returns (p: PeerId)
    requires s != {} && s <= t.Keys
    ensures p in s && forall x :: x in s ==> t[p].lastCrawled <= t[x].lastCrawled
  {
    p :| p in s;
    if s != {p} {
      var q := OldestIn(t, s - {p});
      if t[q].lastCrawled < t[p].lastCrawled {
        p := q;
      }
    }
  }

  lemma {:induction false} DistinctSize(s: seq<PeerId>)
    requires forall i, j | 0 <= i < j < |s| :: s[i] != s[j]
    ensures |Elements(s)| == |s|
  {
    if s != [] {
      var n := |s| - 1;
      DistinctSize(s[..n]);
      assert Elements(s) == Elements(s[..n]) + {s[n]};
    }
  }

  lemma BatchSize(t: Table, s: set<PeerId>, limit: nat, batch: seq<PeerId>)
    requires s <= t.Keys && IsOldestOf(t, s, limit, batch)
    ensures |Elements(batch)| == |batch| && Elements(batch) <= s
    ensures |batch| == if |s| < limit then |s| else limit
  {
    DistinctSize(batch);
    SubsetSize(Elements(batch), s);
    if Elements(batch) != s {
      var p :| p in s && p !in Elements(batch);
      assert p !in batch;
    }
  }

  /** One more of the oldest. */
  lemma AppendOldest(t: Table, s: set<PeerId>, batch: seq<PeerId>, p: PeerId)
    requires s <= t.Keys && IsOldestOf(t, s, |batch|, batch)
    requires p in s && p !in batch && forall x :: x in s && x !in batch ==> t[p].lastCrawled <= t[x].lastCrawled
    ensures IsOldestOf(t, s, |batch| + 1, batch + [p])
  {
  }

  /** A shorter answer can be continued to a longer one. */
  lemma {:induction false} Continue(t: Table, s: set<PeerId>, batch: seq<PeerId>, limit: nat)
    returns (longer: seq<PeerId>)
    requires s <= t.Keys && IsOldestOf(t, s, |batch|, batch) && |batch| <= limit
    ensures IsOldestOf(t, s, limit, longer) && batch <= longer
    decreases limit - |batch|
  {
    if |batch| == limit || s <= Elements(batch) {
      assert forall x :: x in s && |batch| < limit ==> x in Elements(batch);
      longer := batch;
    } else {
      var q :| q in s && q !in Elements(batch);
      assert q in s - Elements(batch);
      var p := OldestIn(t, s - Elements(batch));
      AppendOldest(t, s, batch, p);
      longer := Continue(t, s, batch + [p], limit);
    }
  }

  /** A query always has an answer, of full length if enough peers meet the conditions. */
  lemma BatchExists(t: Table, s: set<PeerId>, limit: nat) returns (batch: seq<PeerId>)
    requires s <= t.Keys
    ensures IsOldestOf(t, s, limit, batch)
    ensures |batch| == if |s| < limit then |s| else limit
  {
    batch := Continue(t, s, [], limit);
    BatchSize(t, s, limit, batch);
  }

  // ----- Who can be chosen, and who can be left out -----

  /** The members of `s` that come before `p`, or tie with it. */
  function Before(t: Table, s: set<PeerId>, p: PeerId): set<PeerId>
    requires s <= t.Keys && p in t
  {
    set x | x in s && x != p && t[x].lastCrawled <= t[p].lastCrawled
  }

  /** The members of `s` that come before `p` in every answer. */
  function StrictlyBefore(t: Table, s: set<PeerId>, p: PeerId): set<PeerId>
    requires s <= t.Keys && p in t
  {
    set x | x in s && t[x].lastCrawled < t[p].lastCrawled
  }

  ghost predicate CanBeLeftOut(t: Table, s: set<PeerId>, limit: nat, p: PeerId)
    requires s <= t.Keys
  {
    exists batch :: IsOldestOf(t, s, limit, batch) && p !in batch
  }

  ghost predicate CanBeChosen(t: Table, s: set<PeerId>, limit: nat, p: PeerId)
    requires s <= t.Keys
  {
    exists batch :: IsOldestOf(t, s, limit, batch) && p in batch
  }

  /** An answer that leaves `p` out holds only peers before or level with it. */
  lemma LeftOutBehind(t: Table, s: set<PeerId>, limit: nat, batch: seq<PeerId>, p: PeerId)
    requires s <= t.Keys && p in s && IsOldestOf(t, s, limit, batch) && p !in batch
    ensures |batch| == limit && |Elements(batch)| == limit && Elements(batch) <= Before(t, s, p)
  {
    BatchSize(t, s, limit, batch);
  }

  /** Some answer leaves out a peer if and only if enough others come before it or level. */
  lemma LeftOutExactly(t: Table, s: set<PeerId>, limit: nat, p: PeerId)
    requires s <= t.Keys && p in s
    ensures CanBeLeftOut(t, s, limit, p) <==> |Before(t, s, p)| >= limit
  {
    var before := Before(t, s, p);
    if CanBeLeftOut(t, s, limit, p) {
      var batch :| IsOldestOf(t, s, limit, batch) && p !in batch;
      LeftOutBehind(t, s, limit, batch, p);
      SubsetSize(Elements(batch), before);
    }
    if |before| >= limit {
      var batch := BatchExists(t, before, limit);
      assert IsOldestOf(t, s, limit, batch) && p !in batch;
    }
  }

  /** Some answer holds a peer if and only if fewer than the limit are strictly before it. */
  lemma ChosenExactly(t: Table, s: set<PeerId>, limit: nat, p: PeerId)
    requires s <= t.Keys && p in s
    ensures CanBeChosen(t, s, limit, p) <==> |StrictlyBefore(t, s, p)| < limit
  {
    var older := StrictlyBefore(t, s, p);
    if CanBeChosen(t, s, limit, p) {
      var batch :| IsOldestOf(t, s, limit, batch) && p in batch;
      OlderAreChosen(t, s, limit, batch, p);
      BatchSize(t, s, limit, batch);
      SubsetSize(older + {p}, Elements(batch));
    }
    if |older| < limit {
      var first := BatchExists(t, older, |older|);
      OlderFirst(t, s, first, p);
      var batch := Continue(t, s, first + [p], limit);
      assert (first + [p])[|first|] == p;
      assert batch[|first|] == p;
    }
  }

  lemma OlderAreChosen(t: Table, s: set<PeerId>, limit: nat, batch: seq<PeerId>, p: PeerId)
    requires s <= t.Keys && IsOldestOf(t, s, limit, batch) && p in batch
    ensures StrictlyBefore(t, s, p) + {p} <= Elements(batch)
  {
    var i :| 0 <= i < |batch| && batch[i] == p;
    forall x | x in StrictlyBefore(t, s, p)
      ensures x in batch
    {
    }
  }

  lemma OlderFirst(t: Table, s: set<PeerId>, first: seq<PeerId>, p: PeerId)
    requires s <= t.Keys && p in s
    requires IsOldestOf(t, StrictlyBefore(t, s, p), |StrictlyBefore(t, s, p)|, first)
    ensures |first| == |StrictlyBefore(t, s, p)| && IsOldestOf(t, s, |first| + 1, first + [p])
  {
    var older := StrictlyBefore(t, s, p);
    BatchSize(t, older, |older|, first);
    SubsetSize(Elements(first), older);
    forall x | x in s && x !in first
      ensures t[p].lastCrawled <= t[x].lastCrawled
    {
      assert x !in Elements(first);
    }
  }
}
