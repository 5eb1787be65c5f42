/**
  `cat` and `dagGet`: each call starts a watcher goroutine for shutdown, and its
  deferred send on an unbuffered channel waits for that watcher.
 */
module Watchers {
  import opened Base

  type Id = nat

  /**
    A call up to its API lookup, between the start of its watcher and the answer of
    its `Get`, in its deferred send, and returned.
   */
  datatype Call = Started | Getting | Sending | Returned

  datatype State = State(calls: map<Id, Call>, watchers: set<Id>, shutdown: bool)

  datatype Step =
    | Start(id: Id)
    | Spawn(id: Id)
    | ApiFails(id: Id)
    | GetReturns(id: Id)
    | Rendezvous(id: Id)
    | Shutdown
    | WatcherQuits(id: Id)

  predicate Enabled(s: State, step: Step) {
    match step
    case Start(id) => id !in s.calls
    case Spawn(id) => id in s.calls && s.calls[id] == Started
    case ApiFails(id) => id in s.calls && s.calls[id] == Started
    case GetReturns(id) => id in s.calls && s.calls[id] == Getting
    case Rendezvous(id) => id in s.calls && s.calls[id] == Sending && id in s.watchers
    case Shutdown => !s.shutdown
    case WatcherQuits(id) => s.shutdown && id in s.watchers
  }

  function Apply(s: State, step: Step): State
    requires Enabled(s, step)
  {
    match step
    case Start(id) => s.(calls := s.calls[id := Started])
    case Spawn(id) => s.(calls := s.calls[id := Getting], watchers := s.watchers + {id})
    case ApiFails(id) => s.(calls := s.calls[id := Sending])
    case GetReturns(id) => s.(calls := s.calls[id := Sending])
    case Rendezvous(id) => s.(calls := s.calls[id := Returned], watchers := s.watchers - {id})
    case Shutdown => s.(shutdown := true)
    case WatcherQuits(id) => s.(watchers := s.watchers - {id})
  }

  const START := State(map[], {}, false)

  ghost predicate IsRun(states: seq<State>, steps: seq<Step>) {
    && |states| == |steps| + 1
    && states[0] == START
    && forall k | 0 <= k < |steps| :: Enabled(states[k], steps[k]) && states[k + 1] == Apply(states[k], steps[k])
  }

  /** The calls between the start of their watcher and the rendezvous with it. */
  function Watched(s: State): set<Id> {
    set id | id in s.calls && (s.calls[id] == Getting || s.calls[id] == Sending)
  }

  /**
    Without a shutdown and an API failure, the live watchers are exactly those calls.
   */
  lemma {:induction false} WatchersMatchCalls(states: seq<State>, steps: seq<Step>, k: nat)
    requires IsRun(states, steps) && k <= |steps|
    requires forall i | 0 <= i < k :: steps[i] != Shutdown && !steps[i].ApiFails?
    ensures states[k].watchers == Watched(states[k]) && !states[k].shutdown
  {
    if k > 0 {
      WatchersMatchCalls(states, steps, k - 1);
      assert states[k - 1 + 1] == Apply(states[k - 1], steps[k - 1]);
    }
  }

  /** So every call in its deferred send can return, and a quiet system has no watcher left. */
  lemma EveryCallCanReturn(states: seq<State>, steps: seq<Step>, k: nat, id: Id)
    requires IsRun(states, steps) && k <= |steps|
    requires forall i | 0 <= i < k :: steps[i] != Shutdown && !steps[i].ApiFails?
    ensures id in states[k].calls && states[k].calls[id] == Sending ==> Enabled(states[k], Rendezvous(id))
    ensures (forall c | c in states[k].calls :: states[k].calls[c] == Returned) ==> states[k].watchers == {}
  {
    WatchersMatchCalls(states, steps, k);
    if id in states[k].calls && states[k].calls[id] == Sending {
      assert id in Watched(states[k]);
    }
  }

  // ----- With shutdowns and API failures -----

  predicate OnlyCallsAreWatched(s: State) {
    forall id | id in s.watchers :: id in Watched(s)
  }

  lemma {:induction false} WatchersAreOfCalls(states: seq<State>, steps: seq<Step>, k: nat)
    requires IsRun(states, steps) && k <= |steps|
    ensures OnlyCallsAreWatched(states[k])
  {
    if k > 0 {
      WatchersAreOfCalls(states, steps, k - 1);
      assert states[k - 1 + 1] == Apply(states[k - 1], steps[k - 1]);
    }
  }

  /** A call in its deferred send without a watcher blocks for good. */
  lemma {:induction false} UnwatchedNeverReturns(states: seq<State>, steps: seq<Step>, j: nat, k: nat, id: Id)
    requires IsRun(states, steps) && j <= k <= |steps|
    requires id in states[j].calls && states[j].calls[id] == Sending && id !in states[j].watchers
    ensures id in states[k].calls && states[k].calls[id] == Sending && id !in states[k].watchers
    decreases k
  {
    if j < k {
      UnwatchedNeverReturns(states, steps, j, k - 1, id);
      assert states[k - 1 + 1] == Apply(states[k - 1], steps[k - 1]);
    }
  }

  /** An API failure is such a case: the call returns early, before it starts a watcher. */
  lemma FailedApiNeverReturns(states: seq<State>, steps: seq<Step>, j: nat, k: nat, id: Id)
    requires IsRun(states, steps) && j < k <= |steps| && steps[j] == ApiFails(id)
    ensures id in states[k].calls && states[k].calls[id] == Sending
  {
    WatchersAreOfCalls(states, steps, j);
    assert states[j + 1] == Apply(states[j], steps[j]);
    UnwatchedNeverReturns(states, steps, j + 1, k, id);
  }

  /** A call in its deferred send has a run on which it returns if and only if its watcher is still there. */
  lemma ReturnsIffWatched(states: seq<State>, steps: seq<Step>, id: Id)
    requires IsRun(states, steps)
    requires var s := states[|steps|]; id in s.calls && s.calls[id] == Sending
    ensures id in states[|steps|].watchers <==>
            exists more: seq<State>, moreSteps: seq<Step> ::
              && IsRun(states + more, steps + moreSteps)
              && id in (states + more)[|steps + moreSteps|].calls
              && (states + more)[|steps + moreSteps|].calls[id] == Returned
  {
    var s := states[|steps|];
    if id in s.watchers {
      var more, moreSteps := [Apply(s, Rendezvous(id))], [Rendezvous(id)];
      assert IsRun(states + more, steps + moreSteps);
      assert (states + more)[|steps + moreSteps|].calls[id] == Returned;
    } else {
      forall more: seq<State>, moreSteps: seq<Step> | IsRun(states + more, steps + moreSteps)
        ensures var last := (states + more)[|steps + moreSteps|]; id in last.calls && last.calls[id] == Sending
      {
        UnwatchedNeverReturns(states + more, steps + moreSteps, |steps|, |steps + moreSteps|, id);
      }
    }
  }
}
