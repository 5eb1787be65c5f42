/**
  Crawl jobs in the peer machine: whichever way a job returns, its events amount to
  one `Finish` step, so the promises about crawl times follow from its exits.
 */
module JobMachine {
  import opened Base
  import opened Peers
  import opened Query
  import opened PeerMachine
  import opened Scheduler
  import ProcessJob

  /** What a job's events do to the peer table. `save` says whether the update at the end succeeds. */
  function AfterEvents(t: Table, events: seq<ProcessJob.Event>, t0: Time, t1: Time, save: bool): Table {
    if events == [] then t else
      var n := |events| - 1;
      var before := AfterEvents(t, events[..n], t0, t1, save);
      match events[n]
      case Crawled(p, pinned) => if save then CrawlNoted(before, p, pinned, t0, t1) else before
      case _ => before
  }

  lemma {:induction false} NothingNoted(t: Table, events: seq<ProcessJob.Event>, t0: Time, t1: Time, save: bool)
    requires forall i | 0 <= i < |events| :: !events[i].Crawled?
    ensures AfterEvents(t, events, t0, t1, save) == t
  {
    if events != [] {
      NothingNoted(t, events[..|events| - 1], t0, t1, save);
    }
  }

  lemma NotedLast(t: Table, events: seq<ProcessJob.Event>, p: PeerId, pinned: bool, t0: Time, t1: Time, save: bool)
    requires |events| > 0 && events[|events| - 1] == ProcessJob.Crawled(p, pinned)
    requires forall i | 0 <= i < |events| - 1 :: !events[i].Crawled?
    ensures AfterEvents(t, events, t0, t1, save) == if save then CrawlNoted(t, p, pinned, t0, t1) else t
  {
    NothingNoted(t, events[..|events| - 1], t0, t1, save);
  }

  lemma CrawledLast(job: ProcessJob.Job, w: ProcessJob.World, config: ProcessJob.Config, r: ProcessJob.Course)
    requires r != ProcessJob.Hung && (r.Committed? ==> ProcessJob.Crawls(job, w))
    ensures var events := ProcessJob.JobEvents(job, w, config, r); var n := |events| - 1;
            && n >= 0 && events[n] == ProcessJob.Crawled(job.peer, job.pinRecord)
            && forall i | 0 <= i < n :: !events[i].Crawled?
  {
    var events := ProcessJob.JobEvents(job, w, config, r);
    forall i | 0 <= i < |events|
      ensures if i == |events| - 1 then events[i] == ProcessJob.Crawled(job.peer, job.pinRecord)
              else !events[i].Crawled?
    {
      ProcessJob.EventKind(job, w, config, r, i);
    }
  }

  /** The events of a job that returns note its crawl, once, and nothing else. */
  lemma EventsNote(t: Table, job: ProcessJob.Job, w: ProcessJob.World, config: ProcessJob.Config, r: ProcessJob.Course,
                   t0: Time, t1: Time, save: bool)
    requires r != ProcessJob.Hung && (r.Committed? ==> ProcessJob.Crawls(job, w))
    ensures AfterEvents(t, ProcessJob.JobEvents(job, w, config, r), t0, t1, save)
            == if save then CrawlNoted(t, job.peer, job.pinRecord, t0, t1) else t
  {
    CrawledLast(job, w, config, r);
    NotedLast(t, ProcessJob.JobEvents(job, w, config, r), job.peer, job.pinRecord, t0, t1, save);
  }

  /** The item is for this job. */
  predicate IsItemOf(s: State, id: nat, job: ProcessJob.Job) {
    id in s.items && s.items[id].stage == Running && s.items[id].peer == job.peer && s.items[id].pin == job.pinRecord
  }

  /**
    The end of a job that returns, by whichever exit: its worker is free, the time has
    come to `t1`, and the peer table is what the job's events make of it.
   */
  lemma ReturnIsFinish(s: State, id: nat, job: ProcessJob.Job, w: ProcessJob.World, config: ProcessJob.Config,
                       r: ProcessJob.Course, t0: Time, t1: Time, save: bool)
    requires IsItemOf(s, id, job) && s.now <= t0 <= t1
    requires r != ProcessJob.Hung && (r.Committed? ==> ProcessJob.Crawls(job, w))
    ensures Enabled(s, Finish(id, t0, t1, save))
    ensures Apply(s, Finish(id, t0, t1, save))
            == s.(peers := AfterEvents(s.peers, ProcessJob.JobEvents(job, w, config, r), t0, t1, save),
                 now := t1, items := s.items - {id})
  {
    EventsNote(s.peers, job, w, config, r, t0, t1, save);
  }

  /** The events of the job when it returns, by one exit or another. */
  ghost predicate ReturnsWith(job: ProcessJob.Job, events: seq<ProcessJob.Event>) {
    exists w: ProcessJob.World, config: ProcessJob.Config, r: ProcessJob.Course ::
      r != ProcessJob.Hung && (r.Committed? ==> ProcessJob.Crawls(job, w))
      && events == ProcessJob.JobEvents(job, w, config, r)
  }

  lemma ReturnIsNoted(t: Table, job: ProcessJob.Job, events: seq<ProcessJob.Event>, t0: Time, t1: Time)
    requires ReturnsWith(job, events)
    ensures AfterEvents(t, events, t0, t1, true) == CrawlNoted(t, job.peer, job.pinRecord, t0, t1)
  {
    var w: ProcessJob.World, config: ProcessJob.Config, r: ProcessJob.Course :|
      r != ProcessJob.Hung && (r.Committed? ==> ProcessJob.Crawls(job, w))
      && events == ProcessJob.JobEvents(job, w, config, r);
    EventsNote(t, job, w, config, r, t0, t1, true);
  }

  /**
    However its job went, a known peer is not handed out again for seven days after
    a job that returned and whose update was saved.
   */
  lemma EveryExitDelaysTheNext(states: seq<State>, steps: seq<Step>, j: nat, k: nat,
                               job: ProcessJob.Job, events: seq<ProcessJob.Event>, t0: Time, t1: Time)
    requires IsRun(states, steps) && Inv(states[0]) && j < k < |steps|
    requires ReturnsWith(job, events)
    requires job.peer != NO_PEER && job.peer in states[j].peers
    requires states[j + 1].peers == AfterEvents(states[j].peers, events, t0, t1, true)
    requires steps[k].OldNodeTick? && job.peer in steps[k].batch
    ensures states[k].now > t0 + RECRAWL_AFTER
  {
    var p := job.peer;
    InvHolds(states, steps, j);
    ReturnIsNoted(states[j].peers, job, events, t0, t1);
    assert states[j + 1].peers[p].lastCrawled == t0;
    RowsMoveForward(states, steps, j + 1, k, p);
    BatchIsEligible(states[k].peers, states[k].now, BATCH, steps[k].batch, p);
  }
}
