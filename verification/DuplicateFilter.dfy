/**
  The pubsub duplicate filter: a set of recent message ids, each with a timer that
  takes it out again a minute after the timer was set.
 */
module DuplicateFilter {
  import opened Base

  type MessageId = nat

  datatype Timer = Timer(id: MessageId, due: Time)

  datatype Acceptance = Acceptance(id: MessageId, time: Time)

  /**
    `arming` is the id that is already in the set but whose timer the loop has yet
    to set; the loop takes no message in between.
   */
  datatype State = State(
    recent: set<MessageId>,
    timers: map<nat, Timer>,
    nextTimer: nat,
    arming: Option<MessageId>,
    now: Time,
    accepted: seq<Acceptance>)

  datatype Step =
    | Message(id: MessageId)
    | Arm
    | Fire(timer: nat)
    | Advance(time: Time)

  predicate Enabled(s: State, step: Step) {
    match step
    case Message(_) => s.arming == None
    case Arm => s.arming.Some?
    case Fire(k) => k in s.timers && s.timers[k].due <= s.now
    case Advance(time) => s.now <= time
  }

  function Apply(s: State, step: Step): State
    requires Enabled(s, step)
  {
    match step
    case Message(id) =>
      if id in s.recent then s
      else s.(recent := s.recent + {id}, arming := Some(id), accepted := s.accepted + [Acceptance(id, s.now)])
    case Arm =>
      s.(timers := s.timers[s.nextTimer := Timer(s.arming.value, s.now + MINUTE)],
         nextTimer := s.nextTimer + 1, arming := None)
    case Fire(k) => s.(recent := s.recent - {s.timers[k].id}, timers := s.timers - {k})
    case Advance(time) => s.(now := time)
  }

  function Start(now: Time): State {
    State({}, map[], 0, None, now, [])
  }

  ghost predicate IsRun(states: seq<State>, steps: seq<Step>) {
    && |states| == |steps| + 1
    && states[0] == Start(states[0].now)
    && forall k | 0 <= k < |steps| :: Enabled(states[k], steps[k]) && states[k + 1] == Apply(states[k], steps[k])
  }

  /** The loop and its timer callbacks as the code has them: a set under a mutex. */
  class Filter {
    var recent: set<MessageId>
    var timers: map<nat, Timer>
    var nextTimer: nat

    constructor ()
      ensures recent == {} && timers == map[] && nextTimer == 0
    {
      recent, timers, nextTimer := {}, map[], 0;
    }

    function View(arming: Option<MessageId>, now: Time, accepted: seq<Acceptance>): State
      reads this
    {
      State(recent, timers, nextTimer, arming, now, accepted)
    }

    /** One message read at `now`; its timer, if it gets one, is set at `later`. */
    method Receive(id: MessageId, now: Time, later: Time, ghost accepted: seq<Acceptance>) returns (isNew: bool)
      requires now <= later
      modifies this
      ensures isNew <==> id !in old(recent)
      ensures var s := Apply(old(View(None, now, accepted)), Message(id));
              View(None, if isNew then later else now, s.accepted) ==
                if isNew then Apply(Apply(s, Advance(later)), Arm) else s
    {
      var known := id in recent;
      if known {
        return false;
      }
      recent := recent + {id};
      timers := timers[nextTimer := Timer(id, later + MINUTE)];
      nextTimer := nextTimer + 1;
      return true;
    }

    method Expire(k: nat, ghost arming: Option<MessageId>, ghost now: Time, ghost accepted: seq<Acceptance>)
      requires k in timers && timers[k].due <= now
      modifies this
      ensures View(arming, now, accepted) == Apply(old(View(arming, now, accepted)), Fire(k))
    {
      recent := recent - {timers[k].id};
      timers := timers - {k};
    }
  }

  // ----- The set and the timers -----

  /** `id` has its expiry ahead: exactly one timer, set or about to be. */
  ghost predicate HasOneTimer(s: State, id: MessageId) {
    && (s.arming != Some(id) ==> exists k :: k in s.timers && s.timers[k].id == id)
    && (forall k | k in s.timers && s.timers[k].id == id ::
          s.arming != Some(id) && forall l | l in s.timers && s.timers[l].id == id :: l == k)
  }

  ghost predicate HasNoTimer(s: State, id: MessageId) {
    s.arming != Some(id) && forall k | k in s.timers :: s.timers[k].id != id
  }

  /** Acceptances of one id are at least a minute apart. */
  predicate Spaced(accepted: seq<Acceptance>) {
    forall i, j | 0 <= i < j < |accepted| && accepted[i].id == accepted[j].id ::
      accepted[j].time >= accepted[i].time + MINUTE
  }

  ghost predicate TimersMatch(s: State) {
    && (forall k | k in s.timers :: k < s.nextTimer)
    && (forall id | id in s.recent :: HasOneTimer(s, id))
    && (forall id | id !in s.recent :: HasNoTimer(s, id))
  }

  /** A pending timer, or its absence, says how long ago the id was accepted. */
  ghost predicate TimesMatch(s: State) {
    && (forall i | 0 <= i < |s.accepted| :: s.accepted[i].time <= s.now)
    && (forall i, k | 0 <= i < |s.accepted| && k in s.timers && s.timers[k].id == s.accepted[i].id ::
          s.timers[k].due >= s.accepted[i].time + MINUTE)
    && (forall i | 0 <= i < |s.accepted| && s.accepted[i].id !in s.recent :: s.now >= s.accepted[i].time + MINUTE)
  }

  /** Only ids that were let through are ever held back. */
  ghost predicate RecentWereAccepted(s: State) {
    forall id | id in s.recent :: exists i | 0 <= i < |s.accepted| :: s.accepted[i].id == id
  }

  ghost predicate Inv(s: State) {
    TimersMatch(s) && TimesMatch(s) && Spaced(s.accepted) && RecentWereAccepted(s)
  }

  lemma TimersMatchStep(s: State, step: Step)
    requires TimersMatch(s) && Enabled(s, step)
    ensures TimersMatch(Apply(s, step))
  {
    var s' := Apply(s, step);
    forall id
      ensures if id in s'.recent then HasOneTimer(s', id) else HasNoTimer(s', id)
    {
      assert if id in s.recent then HasOneTimer(s, id) else HasNoTimer(s, id);
      if step.Arm? && s.arming == Some(id) {
        assert id in s.recent;
        assert s'.timers[s.nextTimer].id == id;
      } else if id in s'.recent && s'.arming != Some(id) {
        assert s.arming != Some(id);
        var k :| k in s.timers && s.timers[k].id == id;
        assert k in s'.timers && s'.timers[k].id == id;
      }
    }
  }

  lemma InvStep(s: State, step: Step)
    requires Inv(s) && Enabled(s, step)
    ensures Inv(Apply(s, step))
  {
    TimersMatchStep(s, step);
    if step.Fire? {
      assert s.timers[step.timer].id in s.recent by {
        assert !HasNoTimer(s, s.timers[step.timer].id);
      }
    }
    if step.Arm? {
      assert s.arming.value in s.recent by {
        assert !HasNoTimer(s, s.arming.value);
      }
    }
    var s' := Apply(s, step);
    forall id | id in s'.recent
      ensures exists i | 0 <= i < |s'.accepted| :: s'.accepted[i].id == id
    {
      if id in s.recent {
        var i :| 0 <= i < |s.accepted| && s.accepted[i].id == id;
        assert s'.accepted[i] == s.accepted[i];
      } else {
        assert s'.accepted[|s.accepted|].id == id;
      }
    }
  }

  /** In every run, an id is in the set exactly when it has one expiry ahead, and none otherwise. */
  lemma {:induction false} InvHolds(states: seq<State>, steps: seq<Step>, k: nat)
    requires IsRun(states, steps) && k <= |steps|
    ensures Inv(states[k])
  {
    if k > 0 {
      InvHolds(states, steps, k - 1);
      InvStep(states[k - 1], steps[k - 1]);
      assert states[k - 1 + 1] == Apply(states[k - 1], steps[k - 1]);
    }
  }

  // ----- The rate bound -----

  predicate Hit(a: Acceptance, id: MessageId, from: Time, to: Time) {
    a.id == id && from <= a.time <= to
  }

  /** How many acceptances of `id` fall between two times. */
  function Hits(accepted: seq<Acceptance>, id: MessageId, from: Time, to: Time): nat {
    if accepted == [] then 0 else
      var n := |accepted| - 1;
      Hits(accepted[..n], id, from, to) + if Hit(accepted[n], id, from, to) then 1 else 0
  }

  /** The last of `n` hits comes at least `n - 1` minutes after the start of the interval. */
  lemma {:induction false} LastHit(accepted: seq<Acceptance>, id: MessageId, from: Time, to: Time) returns (i: nat)
    requires Spaced(accepted) && Hits(accepted, id, from, to) > 0
    ensures i < |accepted| && Hit(accepted[i], id, from, to)
    ensures accepted[i].time >= from + (Hits(accepted, id, from, to) - 1) * MINUTE
  {
    var n := |accepted| - 1;
    if Hits(accepted[..n], id, from, to) > 0 {
      i := LastHit(accepted[..n], id, from, to);
      if Hit(accepted[n], id, from, to) {
        assert accepted[..n][i] == accepted[i];
        i := n;
      }
    } else {
      i := n;
    }
  }

  /**
    In every run, from however many nodes messages come: in any interval of
    `minutes` minutes at most `minutes + 1` copies of one message are let through.
   */
  lemma RateBound(states: seq<State>, steps: seq<Step>, k: nat, id: MessageId, from: Time, to: Time)
    requires IsRun(states, steps) && k <= |steps| && from <= to
    ensures Hits(states[k].accepted, id, from, to) <= (to - from) / MINUTE + 1
  {
    InvHolds(states, steps, k);
    var n := Hits(states[k].accepted, id, from, to);
    if n > 0 {
      var i := LastHit(states[k].accepted, id, from, to);
      assert (n - 1) * MINUTE <= to - from;
      QuotientBound(n - 1, to - from);
    }
  }

  lemma QuotientBound(q: int, x: Time)
    requires q * MINUTE <= x
    ensures q <= x / MINUTE
  {
  }
}
