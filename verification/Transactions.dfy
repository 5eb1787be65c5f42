/**
  `Database.View` and `Database.Update`, which have the same body: a mutex around
  begin, the caller's closure, and commit or rollback.  Any number of callers run
  interleaved, one lock, statement or unlock at a time.
 */
module Transactions {
  import opened Base

  /**
    One statement of a closure: it reads and writes the transaction's working copy
    and the variables that the closure captures, or returns an error.
   */
  datatype Result<T, L> = Ok(table: T, locals: L) | Err(locals: L)

  datatype Closure<!T, !L> = Closure(statements: seq<(T, L) -> Result<T, L>>, init: L)

  /** What a whole transaction leaves: the committed table, the captured variables, and whether it succeeded. */
  datatype Outcome<T, L> = Outcome(table: T, locals: L, ok: bool)

  /** The closure's statements on a working copy, up to the first error. */
  function RunFrom<T, L>(statements: seq<(T, L) -> Result<T, L>>, table: T, locals: L): Outcome<T, L> {
    if statements == [] then Outcome(table, locals, true) else
      match statements[0](table, locals)
      case Ok(table', locals') => RunFrom(statements[1..], table', locals')
      case Err(locals') => Outcome(table, locals', false)
  }

  /** A closure run alone and at once. The commit itself may fail. */
  function Execute<T, L>(c: Closure<T, L>, table: T, commits: bool): Outcome<T, L> {
    var r := RunFrom(c.statements, table, c.init);
    if r.ok && commits then r else Outcome(table, r.locals, false)
  }

  /** The wrapper itself, run alone. */
  class Store<T, L> {
    var committed: T

    constructor (t: T)
      ensures committed == t
    {
      committed := t;
    }

    method Update(c: Closure<T, L>, commits: bool) returns (ok: bool, locals: L)
      modifies this
      ensures Outcome(committed, locals, ok) == Execute(c, old(committed), commits)
    {
      var tx := committed;
      locals := c.init;
      var i := 0;
      while i < |c.statements|
        invariant i <= |c.statements| && committed == old(committed)
        invariant RunFrom(c.statements, committed, c.init) == RunFrom(c.statements[i..], tx, locals)
      {
        match c.statements[i](tx, locals) {
          case Ok(table', locals') =>
            tx, locals := table', locals';
          case Err(locals') =>
            return false, locals';
        }
        assert c.statements[i..][1..] == c.statements[i + 1..];
        i := i + 1;
      }
      if commits {
        committed := tx;
      }
      return commits, locals;
    }
  }

  // ----- Interleaved callers -----

  /** Where a caller is. From `Locked` to `Closed` it holds the mutex. */
  datatype Caller<T, L> =
    | Waiting
    | Locked
    | Open(working: T, locals: L, next: nat)
    | Failed(locals: L)
    | Closed(ok: bool, locals: L)
    | Returned(ok: bool, locals: L)
  {
    predicate Holds() {
      !Waiting? && !Returned?
    }
  }

  /** The order in which transactions ended, and whether their commit went through. */
  datatype Entry = Entry(caller: nat, commits: bool)

  datatype State<T, L> = State(committed: T, mutex: Option<nat>, callers: seq<Caller<T, L>>, log: seq<Entry>)

  datatype Step =
    | Lock(i: nat)
    | Begin(i: nat)
    | Statement(i: nat)
    | Commit(i: nat, commits: bool)
    | Rollback(i: nat)
    | Unlock(i: nat)

  type Closures<!T, !L> = seq<Closure<T, L>>

  predicate Enabled<T, L>(cs: Closures<T, L>, s: State<T, L>, step: Step) {
    && |s.callers| == |cs| && step.i < |cs|
    && var c := s.callers[step.i];
       match step
       case Lock(i) => c.Waiting? && s.mutex == None
       case Begin(i) => c.Locked?
       case Statement(i) => c.Open? && c.next < |cs[i].statements|
       case Commit(i, _) => c.Open? && c.next == |cs[i].statements|
       case Rollback(i) => c.Failed?
       case Unlock(i) => c.Closed?
  }

  function Apply<T, L>(cs: Closures<T, L>, s: State<T, L>, step: Step): State<T, L>
    requires Enabled(cs, s, step)
  {
    var i, c := step.i, s.callers[step.i];
    match step
    case Lock(_) => s.(mutex := Some(i), callers := s.callers[i := Locked])
    case Begin(_) => s.(callers := s.callers[i := Open(s.committed, cs[i].init, 0)])
    case Statement(_) =>
      (match cs[i].statements[c.next](c.working, c.locals)
       case Ok(table, locals) => s.(callers := s.callers[i := Open(table, locals, c.next + 1)])
       case Err(locals) => s.(callers := s.callers[i := Failed(locals)]))
    case Commit(_, commits) =>
      s.(committed := if commits then c.working else s.committed,
         callers := s.callers[i := Closed(commits, c.locals)], log := s.log + [Entry(i, commits)])
    case Rollback(_) => s.(callers := s.callers[i := Closed(false, c.locals)], log := s.log + [Entry(i, false)])
    case Unlock(_) => s.(mutex := None, callers := s.callers[i := Returned(c.ok, c.locals)])
  }

  function Start<T, L>(cs: Closures<T, L>, table: T): State<T, L> {
    State(table, None, seq(|cs|, i => Waiting), [])
  }

  /** The states of a run, first to last. */
  ghost predicate IsRun<T, L>(cs: Closures<T, L>, table: T, states: seq<State<T, L>>, steps: seq<Step>) {
    && |states| == |steps| + 1
    && states[0] == Start(cs, table)
    && forall k | 0 <= k < |steps| ::
         Enabled(cs, states[k], steps[k]) && states[k + 1] == Apply(cs, states[k], steps[k])
  }

  // ----- Serial runs of whole closures -----

  predicate LogFits<T, L>(cs: Closures<T, L>, log: seq<Entry>) {
    forall e | 0 <= e < |log| :: log[e].caller < |cs|
  }

  /** The table after running the logged closures whole, one after the other. */
  function Serial<T, L>(cs: Closures<T, L>, table: T, log: seq<Entry>): T
    requires LogFits(cs, log)
  {
    if log == [] then table else
      var last := log[|log| - 1];
      Execute(cs[last.caller], Serial(cs, table, log[..|log| - 1]), last.commits).table
  }

  /** The outcome of the `e`-th logged closure in that serial run. */
  function SerialOutcome<T, L>(cs: Closures<T, L>, table: T, log: seq<Entry>, e: nat): Outcome<T, L>
    requires LogFits(cs, log) && e < |log|
  {
    Execute(cs[log[e].caller], Serial(cs, table, log[..e]), log[e].commits)
  }

  /** What a caller knows fits a serial run in which it comes next, or came at its place in the log. */
  ghost predicate CallerFits<T, L>(cs: Closures<T, L>, s: State<T, L>, i: nat)
    requires i < |cs|
  {
    |s.callers| == |cs| &&
    var whole := RunFrom(cs[i].statements, s.committed, cs[i].init);
    match s.callers[i]
    case Open(working, locals, next) =>
      next <= |cs[i].statements| && whole == RunFrom(cs[i].statements[next..], working, locals)
    case Failed(locals) => whole.locals == locals && !whole.ok
    case _ => true
  }

  /** A logged caller is past its transaction, with the outcome of the serial run. */
  ghost predicate EntryFits<T, L>(cs: Closures<T, L>, table: T, s: State<T, L>, e: nat)
    requires LogFits(cs, s.log) && e < |s.log| && |s.callers| == |cs|
  {
    var c, o := s.callers[s.log[e].caller], SerialOutcome(cs, table, s.log, e);
    (c.Closed? || c.Returned?) && c.ok == o.ok && c.locals == o.locals
  }

  ghost predicate MutexFits<T, L>(s: State<T, L>) {
    forall i | 0 <= i < |s.callers| :: s.callers[i].Holds() <==> s.mutex == Some(i)
  }

  predicate Logged(log: seq<Entry>, i: nat) {
    exists e | 0 <= e < |log| :: log[e].caller == i
  }

  lemma LoggedNext(log: seq<Entry>, last: Entry, i: nat)
    ensures Logged(log + [last], i) <==> Logged(log, i) || last.caller == i
  {
    var all := log + [last];
    if Logged(log, i) {
      var e :| 0 <= e < |log| && log[e].caller == i;
      assert all[e].caller == i;
    }
    assert all[|log|] == last;
  }

  ghost predicate Serializable<T, L>(cs: Closures<T, L>, table: T, s: State<T, L>) {
    && |s.callers| == |cs| && LogFits(cs, s.log)
    && s.committed == Serial(cs, table, s.log)
    && (forall e | 0 <= e < |s.log| :: EntryFits(cs, table, s, e))
    && (forall i | 0 <= i < |cs| && (s.callers[i].Closed? || s.callers[i].Returned?) :: Logged(s.log, i))
    && (forall e, f | 0 <= e < f < |s.log| :: s.log[e].caller != s.log[f].caller)
  }

  ghost predicate Inv<T, L>(cs: Closures<T, L>, table: T, s: State<T, L>) {
    && Serializable(cs, table, s)
    && MutexFits(s)
    && (s.mutex.Some? ==> s.mutex.value < |cs|)
    && (forall i | 0 <= i < |cs| :: CallerFits(cs, s, i))
  }

  lemma CallerFitsQuietly<T, L>(cs: Closures<T, L>, table: T, s: State<T, L>, step: Step, j: nat)
    requires Inv(cs, table, s) && Enabled(cs, s, step) && !step.Commit? && !step.Rollback? && j < |cs|
    ensures CallerFits(cs, Apply(cs, s, step), j)
  {
    assert CallerFits(cs, s, j);
    if j == step.i && step.Statement? {
      var next := s.callers[j].next;
      assert cs[j].statements[next..][1..] == cs[j].statements[next + 1..];
    }
  }

  lemma MutexFitsQuietly<T, L>(cs: Closures<T, L>, s: State<T, L>, step: Step)
    requires MutexFits(s) && Enabled(cs, s, step) && !step.Commit? && !step.Rollback?
    ensures MutexFits(Apply(cs, s, step))
  {
  }

  lemma SerializableQuietly<T, L>(cs: Closures<T, L>, table: T, s: State<T, L>, step: Step)
    requires Inv(cs, table, s) && Enabled(cs, s, step) && !step.Commit? && !step.Rollback?
    ensures Serializable(cs, table, Apply(cs, s, step))
  {
    forall e | 0 <= e < |s.log|
      ensures EntryFits(cs, table, Apply(cs, s, step), e)
    {
      assert EntryFits(cs, table, s, e);
    }
  }

  /** A step that leaves the table and the log alone. */
  lemma InvQuietStep<T, L>(cs: Closures<T, L>, table: T, s: State<T, L>, step: Step)
    requires Inv(cs, table, s) && Enabled(cs, s, step) && !step.Commit? && !step.Rollback?
    ensures Inv(cs, table, Apply(cs, s, step))
  {
    SerializableQuietly(cs, table, s, step);
    MutexFitsQuietly(cs, s, step);
    forall j | 0 <= j < |cs|
      ensures CallerFits(cs, Apply(cs, s, step), j)
    {
      CallerFitsQuietly(cs, table, s, step, j);
    }
  }

  /** What an ending transaction leaves is what its whole closure leaves when run alone. */
  lemma EndsAsExecuted<T, L>(cs: Closures<T, L>, table: T, s: State<T, L>, step: Step)
    requires Inv(cs, table, s) && Enabled(cs, s, step) && (step.Commit? || step.Rollback?)
    ensures var s', i := Apply(cs, s, step), step.i;
            && s'.log == s.log + [Entry(i, step.Commit? && step.commits)]
            && LogFits(cs, s'.log)
            && Execute(cs[i], s.committed, step.Commit? && step.commits)
               == Outcome(s'.committed, s'.callers[i].locals, s'.callers[i].ok)
            && s'.committed == Serial(cs, table, s'.log)
  {
    var s', i := Apply(cs, s, step), step.i;
    assert CallerFits(cs, s, i);
    assert s'.log[..|s.log|] == s.log;
  }

  lemma EntriesFitAfterEnd<T, L>(cs: Closures<T, L>, table: T, s: State<T, L>, step: Step, e: nat)
    requires Inv(cs, table, s) && Enabled(cs, s, step) && (step.Commit? || step.Rollback?)
    requires e <= |s.log|
    ensures LogFits(cs, Apply(cs, s, step).log) && EntryFits(cs, table, Apply(cs, s, step), e)
    ensures e < |s.log| ==> s.log[e].caller != step.i
  {
    var s' := Apply(cs, s, step);
    EndsAsExecuted(cs, table, s, step);
    assert s'.log[..e] == s.log[..e];
    if e < |s.log| {
      assert EntryFits(cs, table, s, e);
    } else {
      assert s.log[..e] == s.log;
    }
  }

  lemma EndedAreLogged<T, L>(cs: Closures<T, L>, table: T, s: State<T, L>, step: Step, j: nat)
    requires Inv(cs, table, s) && Enabled(cs, s, step) && (step.Commit? || step.Rollback?)
    requires var s' := Apply(cs, s, step); j < |cs| && (s'.callers[j].Closed? || s'.callers[j].Returned?)
    ensures Logged(Apply(cs, s, step).log, j)
  {
    var s' := Apply(cs, s, step);
    LoggedNext(s.log, s'.log[|s.log|], j);
    assert j != step.i ==> s'.callers[j] == s.callers[j];
  }

  /** A commit or a rollback is where a transaction takes its place in the serial order. */
  lemma SerializableEndStep<T, L>(cs: Closures<T, L>, table: T, s: State<T, L>, step: Step)
    requires Inv(cs, table, s) && Enabled(cs, s, step) && (step.Commit? || step.Rollback?)
    ensures Serializable(cs, table, Apply(cs, s, step))
  {
    var s', n := Apply(cs, s, step), |s.log|;
    EndsAsExecuted(cs, table, s, step);
    forall e | 0 <= e < |s'.log|
      ensures EntryFits(cs, table, s', e)
      ensures e < n ==> s'.log[e] == s.log[e] && s.log[e].caller != step.i
    {
      EntriesFitAfterEnd(cs, table, s, step, e);
    }
    forall j | 0 <= j < |cs| && (s'.callers[j].Closed? || s'.callers[j].Returned?)
      ensures Logged(s'.log, j)
    {
      EndedAreLogged(cs, table, s, step, j);
    }
  }

  lemma InvEndStep<T, L>(cs: Closures<T, L>, table: T, s: State<T, L>, step: Step)
    requires Inv(cs, table, s) && Enabled(cs, s, step) && (step.Commit? || step.Rollback?)
    ensures Inv(cs, table, Apply(cs, s, step))
  {
    SerializableEndStep(cs, table, s, step);
    OthersWaitAfterEnd(cs, table, s, step);
  }

  lemma OthersWaitAfterEnd<T, L>(cs: Closures<T, L>, table: T, s: State<T, L>, step: Step)
    requires Inv(cs, table, s) && Enabled(cs, s, step) && (step.Commit? || step.Rollback?)
    ensures MutexFits(Apply(cs, s, step))
    ensures forall j | 0 <= j < |cs| :: CallerFits(cs, Apply(cs, s, step), j)
  {
    forall j | 0 <= j < |cs|
      ensures CallerFits(cs, Apply(cs, s, step), j)
    {
      assert s.callers[j].Holds() <==> s.mutex == Some(j);
      assert s.callers[step.i].Holds() <==> s.mutex == Some(step.i);
    }
  }

  lemma {:induction false} InvHolds<T, L>(cs: Closures<T, L>, table: T,
                                                states: seq<State<T, L>>, steps: seq<Step>, k: nat)
    requires IsRun(cs, table, states, steps) && k <= |steps|
    ensures Inv(cs, table, states[k])
  {
    if k > 0 {
      InvHolds(cs, table, states, steps, k - 1);
      assert states[k - 1 + 1] == Apply(cs, states[k - 1], steps[k - 1]);
      if steps[k - 1].Commit? || steps[k - 1].Rollback? {
        InvEndStep(cs, table, states[k - 1], steps[k - 1]);
      } else {
        InvQuietStep(cs, table, states[k - 1], steps[k - 1]);
      }
    }
  }

  /** The serial order is only ever extended. */
  lemma {:induction false} LogGrows<T, L>(cs: Closures<T, L>, table: T,
                                                states: seq<State<T, L>>, steps: seq<Step>, j: nat, k: nat)
    requires IsRun(cs, table, states, steps) && j <= k <= |steps|
    ensures states[j].log <= states[k].log
    decreases k
  {
    if j < k {
      LogGrows(cs, table, states, steps, j, k - 1);
      assert states[k - 1 + 1] == Apply(cs, states[k - 1], steps[k - 1]);
    }
  }

  /**
    One serial order explains the whole run: its log so far gives the committed
    table at every point, and lists each finished caller once with the outcome it
    was given.
   */
  lemma RunIsSerializable<T, L>(cs: Closures<T, L>, table: T,
                                states: seq<State<T, L>>, steps: seq<Step>, j: nat, k: nat)
    requires IsRun(cs, table, states, steps) && j <= k <= |steps|
    ensures Serializable(cs, table, states[j]) && Serializable(cs, table, states[k])
    ensures states[j].log <= states[k].log
  {
    InvHolds(cs, table, states, steps, j);
    InvHolds(cs, table, states, steps, k);
    LogGrows(cs, table, states, steps, j, k);
  }

  /** The serial order respects real time: a call that returned before another began comes first. */
  lemma SerialOrderIsRealTime<T, L>(cs: Closures<T, L>, table: T, states: seq<State<T, L>>, steps: seq<Step>,
                                    j: nat, k: nat, d: nat, e: nat)
    requires IsRun(cs, table, states, steps) && j <= k <= |steps|
    requires d < |states[k].log| && e < |states[k].log|
    requires var a, b := states[k].log[d].caller, states[k].log[e].caller;
             && a < |states[j].callers| && states[j].callers[a].Returned?
             && b < |states[j].callers| && states[j].callers[b].Waiting?
    ensures d < e
  {
    RunIsSerializable(cs, table, states, steps, j, k);
    var s, a := states[j], states[k].log[d].caller;
    forall f | 0 <= f < |s.log|
      ensures !s.callers[s.log[f].caller].Waiting? && states[k].log[f] == s.log[f]
    {
      assert EntryFits(cs, table, s, f);
    }
    assert Logged(s.log, a);
    var d' :| 0 <= d' < |s.log| && s.log[d'].caller == a;
    assert states[k].log[d'] == s.log[d'];
    assert d' == d;
  }

  /** A caller whose call failed, in its closure or at the commit, left no trace in the table. */
  lemma FailureLeavesNoTrace<T, L>(cs: Closures<T, L>, table: T, s: State<T, L>, e: nat)
    requires Inv(cs, table, s) && e < |s.log|
    requires var c := s.callers[s.log[e].caller]; (c.Closed? || c.Returned?) && !c.ok
    ensures Serial(cs, table, s.log[..e + 1]) == Serial(cs, table, s.log[..e])
  {
    assert EntryFits(cs, table, s, e);
    assert s.log[..e + 1][..e] == s.log[..e];
  }

  /** No deadlock: as long as some caller has not returned, some step can be taken. */
  lemma SomeStepIsEnabled<T, L>(cs: Closures<T, L>, table: T, s: State<T, L>, i: nat)
    requires Inv(cs, table, s) && i < |cs| && !s.callers[i].Returned?
    ensures exists step :: Enabled(cs, s, step)
  {
    var h := if s.mutex.Some? then s.mutex.value else i;
    assert s.callers[h].Holds() <==> s.mutex == Some(h);
    assert CallerFits(cs, s, h);
    var step := match s.callers[h]
                case Locked => Begin(h)
                case Open(_, _, next) => if next < |cs[h].statements| then Statement(h) else Commit(h, true)
                case Failed(_) => Rollback(h)
                case Closed(_, _) => Unlock(h)
                case Waiting => Lock(h)
                case Returned(_, _) => Lock(i);
    assert Enabled(cs, s, step);
  }
}
