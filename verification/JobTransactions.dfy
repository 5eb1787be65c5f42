/**
  The transactions of crawl jobs as closures under the transaction wrapper.  For any
  number of workers, interleaved statement by statement, the table is that of one
  serial run of the jobs, so what holds of histories holds of interleaved workers.
 */
module JobTransactions {
  import opened Base
  import opened CidTable
  import opened CidHistory
  import opened Transactions

  /** The transaction of one job, with the failures that it will meet if it gets that far. */
  datatype JobTx = JobTx(peer: PeerId, graph: seq<Cid>, db: Faults)

  /** The variables that the closure captures. */
  datatype Locals = Locals(oldCIDs: Rows, newCIDs: set<Cid>, toUnpin: seq<Cid>)

  const NO_LOCALS := Locals([], {}, [])

  type Statement = (Rows, Locals) -> Transactions.Result<Rows, Locals>

  function Load(j: JobTx): Statement {
    (rows: Rows, l: Locals) => Ok(rows, l.(oldCIDs := Loaded(rows, j.peer, j.db)))
  }

  function SaveOf(j: JobTx, id: Cid, saves: bool): Statement {
    (rows: Rows, l: Locals) =>
      if id in l.newCIDs then Ok(rows, l)
      else if !saves then Err(l)
      else Ok(rows + [Row(id, j.peer)], l.(newCIDs := l.newCIDs + {id}))
  }

  function Saves(j: JobTx, n: nat): seq<Statement>
    requires n <= |j.graph|
  {
    if n == 0 then [] else Saves(j, n - 1) + [SaveOf(j, j.graph[n - 1], j.db.saves(n - 1))]
  }

  /** The loop over the old records. Its statements depend on what was loaded, and so are taken together. */
  function Drops(j: JobTx): Statement {
    (rows: Rows, l: Locals) =>
      var d := DropFirst(rows, j.peer, l.newCIDs, l.oldCIDs, j.db, |l.oldCIDs|);
      if d.ok then Ok(d.tx, l.(toUnpin := d.toUnpin)) else Err(l.(toUnpin := d.toUnpin))
  }

  function ClosureOf(j: JobTx): Closure<Rows, Locals> {
    Closure([Load(j)] + Saves(j, |j.graph|) + [Drops(j)], NO_LOCALS)
  }

  lemma {:induction false} RunOn<T, L>(a: seq<(T, L) -> Transactions.Result<T, L>>,
                                             b: seq<(T, L) -> Transactions.Result<T, L>>, table: T, locals: L)
    ensures RunFrom(a + b, table, locals) ==
            var r := RunFrom(a, table, locals); if r.ok then RunFrom(b, r.table, r.locals) else r
  {
    if a == [] {
      assert a + b == b;
    } else {
      assert (a + b)[1..] == a[1..] + b;
      match a[0](table, locals)
      case Ok(table', locals') => RunOn(a[1..], b, table', locals');
      case Err(_) =>
    }
  }

  lemma RunOne<T, L>(f: (T, L) -> Transactions.Result<T, L>, table: T, locals: L)
    ensures RunFrom([f], table, locals) ==
            match f(table, locals) case Ok(t, l) => Outcome(t, l, true) case Err(l) => Outcome(table, l, false)
  {
  }

  lemma {:induction false} SavesRun(j: JobTx, rows: Rows, l: Locals, n: nat)
    requires n <= |j.graph| && l.newCIDs == {}
    ensures var r, s := RunFrom(Saves(j, n), rows, l), SaveFirst(rows, j.peer, j.graph, j.db, n);
            && r.ok == s.ok
            && (r.ok ==> r.table == s.tx && r.locals == l.(newCIDs := s.newCIDs))
            && r.locals.toUnpin == l.toUnpin
  {
    if n > 0 {
      var last := SaveOf(j, j.graph[n - 1], j.db.saves(n - 1));
      SavesRun(j, rows, l, n - 1);
      RunOn(Saves(j, n - 1), [last], rows, l);
      var r := RunFrom(Saves(j, n - 1), rows, l);
      RunOne(last, r.table, r.locals);
    }
  }

  /** The closure of a job, statement by statement, amounts to the two loops of the reconciliation. */
  lemma ClosureRuns(j: JobTx, rows: Rows)
    ensures var r := RunFrom(ClosureOf(j).statements, rows, NO_LOCALS);
            var s := SaveFirst(rows, j.peer, j.graph, j.db, |j.graph|);
            var d := DropFirst(s.tx, j.peer, s.newCIDs, Loaded(rows, j.peer, j.db), j.db, |Loaded(rows, j.peer, j.db)|);
            && (r.ok <==> s.ok && d.ok)
            && (r.ok ==> r.table == d.tx && r.locals.toUnpin == d.toUnpin)
  {
    var saves := Saves(j, |j.graph|);
    RunOn([Load(j)] + saves, [Drops(j)], rows, NO_LOCALS);
    RunOn([Load(j)], saves, rows, NO_LOCALS);
    RunOne(Load(j), rows, NO_LOCALS);
    var loaded := NO_LOCALS.(oldCIDs := Loaded(rows, j.peer, j.db));
    SavesRun(j, rows, loaded, |j.graph|);
    var r := RunFrom(saves, rows, loaded);
    RunOne(Drops(j), r.table, r.locals);
  }

  /** And so a job run through the wrapper has the effect that `Database.Reconcile` ensures. */
  lemma ClosureEffect(j: JobTx, rows: Rows, commits: bool)
    ensures var o := Execute(ClosureOf(j), rows, commits);
            TransactionEffect(rows, o.table, j.peer, j.graph, j.db.(commit := commits), o.ok, o.locals.toUnpin)
  {
    ClosureRuns(j, rows);
    var db, oldCIDs := j.db.(commit := commits), Loaded(rows, j.peer, j.db);
    var s := SaveFirst(rows, j.peer, j.graph, j.db, |j.graph|);
    var d := DropFirst(s.tx, j.peer, s.newCIDs, oldCIDs, j.db, |oldCIDs|);
    SaveFirstEffect(rows, j.peer, j.graph, j.db, |j.graph|);
    SaveFirstEnds(rows, j.peer, j.graph, j.db, |j.graph|);
    TakeAll(j.graph);
    DropFirstEnds(s.tx, j.peer, s.newCIDs, oldCIDs, j.db, |oldCIDs|);
    if s.ok && d.ok && commits {
      DropFirstEffect(rows, s.tx, j.peer, s.newCIDs, oldCIDs, j.db, |oldCIDs|);
      TakeAll(oldCIDs);
      MergedFromLoops(rows, d.tx, j.peer, j.graph, db, d.toUnpin);
    }
  }

  // ----- Interleaved workers -----

  function ClosuresOf(js: seq<JobTx>): Closures<Rows, Locals> {
    seq(|js|, i requires 0 <= i < |js| => ClosureOf(js[i]))
  }

  /** The table before the `e`-th logged job. */
  function TablesOf(js: seq<JobTx>, log: seq<Entry>): (tables: seq<Rows>)
    requires LogFits(ClosuresOf(js), log)
    ensures |tables| == |log| + 1
  {
    seq(|log| + 1, e requires 0 <= e <= |log| => Serial(ClosuresOf(js), [], log[..e]))
  }

  /** The logged jobs in their serial order, with the outcomes the serial run gives them. */
  function TrialsOf(js: seq<JobTx>, log: seq<Entry>): (trials: seq<Trial>)
    requires LogFits(ClosuresOf(js), log)
    ensures |trials| == |log|
  {
    seq(|log|, e requires 0 <= e < |log| => TrialAt(js, log, e))
  }

  function TrialAt(js: seq<JobTx>, log: seq<Entry>, e: nat): Trial
    requires LogFits(ClosuresOf(js), log) && e < |log|
  {
    var j, o := js[log[e].caller], SerialOutcome(ClosuresOf(js), [], log, e);
    Trial(j.peer, j.graph, j.db.(commit := log[e].commits), o.ok, o.locals.toUnpin)
  }

  lemma SerialNext(js: seq<JobTx>, log: seq<Entry>, e: nat)
    requires LogFits(ClosuresOf(js), log) && e < |log|
    ensures Serial(ClosuresOf(js), [], log[..e + 1]) == SerialOutcome(ClosuresOf(js), [], log, e).table
  {
    assert log[..e + 1][..e] == log[..e];
  }

  /** The worker of the `e`-th logged job was told what the serial run says. */
  predicate Given(js: seq<JobTx>, s: State<Rows, Locals>, e: nat)
    requires LogFits(ClosuresOf(js), s.log) && e < |s.log|
  {
    var i, t := s.log[e].caller, TrialAt(js, s.log, e);
    && i < |s.callers|
    && (s.callers[i].Closed? || s.callers[i].Returned?)
    && s.callers[i].ok == t.ok && s.callers[i].locals.toUnpin == t.toUnpin
  }

  lemma EntryIsTrial(js: seq<JobTx>, s: State<Rows, Locals>, e: nat)
    requires Serializable(ClosuresOf(js), [], s) && e < |s.log|
    ensures var t := TrialAt(js, s.log, e);
            TransactionEffect(TablesOf(js, s.log)[e], TablesOf(js, s.log)[e + 1],
                              t.peer, t.graph, t.db, t.ok, t.toUnpin)
    ensures Given(js, s, e)
  {
    assert EntryFits(ClosuresOf(js), [], s, e);
    SerialNext(js, s.log, e);
    ClosureEffect(js[s.log[e].caller], Serial(ClosuresOf(js), [], s.log[..e]), s.log[e].commits);
  }

  /**
    However the statements of any number of workers interleave, and whatever fails,
    at every point of the run the committed table is the last of a run of trials of
    the jobs in the log, and a worker is given the outcome of its trial.
   */
  lemma WorkersAreTrials(js: seq<JobTx>, states: seq<State<Rows, Locals>>, steps: seq<Step>, k: nat)
    requires IsRun(ClosuresOf(js), [], states, steps) && k <= |steps|
    ensures var s := states[k];
            && LogFits(ClosuresOf(js), s.log)
            && IsTrialRun(TablesOf(js, s.log), TrialsOf(js, s.log))
            && s.committed == TablesOf(js, s.log)[|s.log|]
            && forall e | 0 <= e < |s.log| :: Given(js, s, e)
  {
    RunIsSerializable(ClosuresOf(js), [], states, steps, k, k);
    var s := states[k];
    TakeAll(s.log);
    forall e | 0 <= e < |s.log|
      ensures var t := TrialsOf(js, s.log)[e];
              TransactionEffect(TablesOf(js, s.log)[e], TablesOf(js, s.log)[e + 1],
                                t.peer, t.graph, t.db, t.ok, t.toUnpin)
      ensures Given(js, s, e)
    {
      EntryIsTrial(js, s, e);
    }
  }

  function AttemptsOf(trials: seq<Trial>): (jobs: seq<Attempt>)
    ensures |jobs| == |trials|
  {
    seq(|trials|, e requires 0 <= e < |trials| =>
                    Attempt(trials[e].peer, trials[e].graph, trials[e].ok, trials[e].toUnpin))
  }

  /** A run of trials from the empty table in which loads and deletes succeed is a history. */
  lemma TrialsFormHistory(tables: seq<Rows>, trials: seq<Trial>)
    requires IsTrialRun(tables, trials) && tables[0] == []
    requires forall e | 0 <= e < |trials| :: trials[e].db.load && forall n :: trials[e].db.deletes(n)
    ensures IsHistory(tables, AttemptsOf(trials))
  {
    forall e | 0 <= e < |trials|
      ensures CidHistory.Outcome(tables[e], tables[e + 1], AttemptsOf(trials)[e])
    {
      var t := trials[e];
      assert TransactionEffect(tables[e], tables[e + 1], t.peer, t.graph, t.db, t.ok, t.toUnpin);
      if t.ok {
        MergedIsReconciled(tables[e], tables[e + 1], t.peer, t.graph, t.db.deletes);
      }
    }
  }

  /** So with loads and deletes that succeed, interleaved workers always stand at the end of a history. */
  lemma WorkersFormHistory(js: seq<JobTx>, states: seq<State<Rows, Locals>>, steps: seq<Step>, k: nat)
    requires IsRun(ClosuresOf(js), [], states, steps) && k <= |steps|
    requires forall i | 0 <= i < |js| :: js[i].db.load && forall n :: js[i].db.deletes(n)
    ensures var log := states[k].log;
            && LogFits(ClosuresOf(js), log)
            && IsHistory(TablesOf(js, log), AttemptsOf(TrialsOf(js, log)))
            && states[k].committed == TablesOf(js, log)[|log|]
  {
    WorkersAreTrials(js, states, steps, k);
    TrialsFormHistory(TablesOf(js, states[k].log), TrialsOf(js, states[k].log));
  }
}
