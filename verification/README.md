# A verified model of the obcrawler core

obcrawler is a crawler of the OpenBazaar network. It learns of peers from connections
and from IPNS records published over pubsub, crawls each peer's profile and listings,
remembers which content belongs to which peer, pins and unpins that content, and
streams what it finds to subscribers. This project models what the crawler records,
pins, drops, schedules and announces, in Dafny, and proves properties of it over all
inputs, all runs and all interleavings.

`dafny verify dfyconfig.toml` checks everything.

## Layout

- `Dag`, `FetchGraph`: link graphs, and the worklist walk that lists every block under a
  root. The walk keeps no visited set and ranges over a map that it changes; a step may
  pick any entry, and an added entry may or may not be visited in the same range.
  Acyclicity (which content addressing gives) is its only precondition, and it is needed.
- `CidTable`, `CidHistory`: the table of (CID, peer) rows, the transaction of a crawl job
  with every way its statements can fail, and every run of such transactions.
- `Unpinning`: the loop over the nodes by which jobs, bans and the hourly loop unpin.
- `ProcessJob`: a whole crawl job, with its early returns, its stack of deferred calls, and
  the ways in which it can hang.
- `Transactions`, `JobTransactions`: the mutex around begin, closure, and commit or
  rollback, for any number of interleaved callers; and the crawl jobs as such callers.
- `Peers`, `Query`, `PeerMachine`: the peer table and its five writers, the queries of the
  two background loops, and the three producers of jobs and the workers as one machine.
- `Scheduler`, `Starvation`, `Repeats`, `HourlyLoop`, `JobMachine`: what the old-node loop
  hands out over whole runs, runs in which it passes a peer over for ever, crawls repeated
  within the week, the hourly loop, and the crawl jobs as steps of the peer machine.
- `DuplicateFilter`, `SubscriptionHub`, `Watchers`: the pubsub duplicate filter, the
  subscription hub, and the goroutine that each fetch starts to watch for shutdown.
- `ConfigFile`: the rewriting of the sample configuration.

The concurrent parts are state machines whose runs are sequences of states and steps; the
sequential parts are classes and methods proved against functions and predicates.

## Where a promise fails, and exactly when it holds

- A CID referenced by another peer can lose its pin through `BanNode` or the hourly loop,
  which ask to unpin all CIDs of a peer: `SharedCidIsUnpinned`. `PeerUnpinSafety` says that
  this happens to a CID if and only if the last committed job of that peer and the last
  committed job of some other peer both recorded it; `DelayedPeerUnpinSafety` says it of
  unpins that are carried out some commits later.
- Unpinning after a crawl happens after the transaction's lock is released, so a CID may
  have been recorded again by then: `LateUnpinHitsReferenced` is such a run, and
  `DelayedUnpinSafety` says exactly when it happens.
- Unpinning after a crawl can be lost: the transaction has already committed when the API
  of the crawling node is looked up, and `unpinCID` looks the API up again for each node
  and gives up at the first failure: `UnpinIsLost`. `JobUnpins` says that a node is asked to
  unpin a CID if and only if the CID lost its last reference and the lookups for that node
  and all nodes before it succeeded; a node's refusal is ignored.
- A delete that fails inside the transaction leaves its row, but the CID is listed for
  unpinning all the same: `FailedDeleteIsListed`. `ListedButReferenced` says that a listed
  CID is still referenced if and only if no delete for it succeeded. The next good commit of
  the same peer repairs its rows: `GoodCommitRepairs`.
- The comment on `BanNode` says that a banned node is no longer crawled. Jobs admitted
  before the ban still run: `WaitingJobOutlivesBan`. `BanDrains` shows that no others enter, and `AdmissionExact`
  and `UnloadableRowIsQueued` give the one exception, a record whose row cannot be loaded.
- The old-node loop can starve a peer, because a newcomer has never been crawled and goes
  first. A tick can pass an eligible peer over if and only if ten others are ahead of it or
  level: `PassedOverExactly`. `StarvesForever` builds, for every n and from any point of any
  run at which the peer is eligible, n fair ticks in a row that pass it over, and
  `StarvesFromStart` such runs from a fresh crawler. `NoStarvation` bounds the wait by the
  number of peers ahead and of those that overtake.
- A crawl can be repeated within seven days. The last crawl time of a peer without a row is
  not noted: `UnknownPeerIsForgotten`; and such a peer can be handed out in the very moment
  its crawl ends, after any run: `UnknownPeerIsHandedOutAtOnce`. The same goes for a peer
  whose update failed: `UnsavedCrawlIsRepeated`. `RepeatsExactly` says that a finished crawl
  can be repeated within the week if and only if its peer had no row, or its update failed
  and the last noted crawl was older (and the update took no longer than the week).
- If two random subscription keys collide, the first subscriber's channel is lost for good,
  and its `Close` closes the second subscriber's channel: `CollisionLosesChannel`,
  `LostStaysLost`, `FirstCloseHitsSecond`; `KeysCollide` is such a run. Nothing else loses a channel: `LostExactly`, and
  `KeptExactly` for a subscriber. There is still no send on a closed channel and no second
  close.
- A `cat` or `dagGet` whose API lookup fails never returns: `FailedApiNeverReturns`. A
  call in its deferred send can return if and only if its watcher is still there:
  `ReturnsIffWatched`. A crawl job in such a call hangs, although the code means to update
  the last crawl time on every exit, and has no effect: `Process`. A job hangs for certain if
  a lookup before the walk fails or every walk it can make ends in a failed lookup, and can
  hang otherwise only if some walk does: `HangCondition`; `WalkHangsExactly` and
  `ListedExactly` say which walks there are.
- The comment on `createDefaultConfigFile` speaks of a generated user name and password;
  the code only replaces bootstrap addresses. Replacing them again changes nothing if and
  only if there was nothing to replace or there is at most one address:
  `IdempotentExactly`.
- The log messages of the hourly loop speak of dead peers, but its query selects the others.
  A peer that is expired or was not seen for 90 days is never selected: `DeadPeersAreKept`.
  A tick can select a peer if and only if it is neither and fewer than ten such peers were
  crawled before it: `SelectedExactly`; banned peers are not left out. `LivePeerLosesPins`
  gives a run in which a peer that was just seen and just crawled is selected and, if the
  lookups succeed, every node is asked to unpin all it has.

## Model

| member | source | states |
|---|---|---|
| Dag.WeightCountsPaths | crawler/worker.go:396-423 | The measure of a worklist towards a node is the number of link paths from its entries to that node. |
| Dag.PathsFromExact | crawler/worker.go:396-423 | The counted paths are exactly the sequences of blocks in which each links to the next. |
| Dag.WeightStep | crawler/worker.go:406-420 | Replacing any worklist entry by its distinct links lowers the measure by what that entry's visit counts. |
| FetchGraph.Fetch | crawler/worker.go:396-423 | Whichever keys the range yields the walk ends; each node is listed at most once per path from the root, the root first; without an error exactly the reachable nodes are listed; an error is the failure of the last listed node's fetch, and only reachable nodes are listed. |
| FetchGraph.CycleKeepsWorklistFull | crawler/worker.go:402-421 | If a cycle can be reached from the worklist, every step leaves the worklist non-empty, so acyclicity is needed for termination. |
| FetchGraph.ListedExactly | crawler/worker.go:402-421 | The lists that the loops can produce, over all choices of the ranges, are exactly the sequences in which each node is on the worklist that the nodes before it left. |
| CidTable.SaveNew | crawler/worker.go:232-242 | It succeeds if and only if every save succeeds that it makes, one for the first place of each distinct CID; then peer p has one more row for each and nothing else changed. |
| CidTable.DropOld | crawler/worker.go:244-264 | It succeeds if and only if the query for every old record that does not carry forward succeeds; then the dropped CIDs of p have no rows if a delete succeeded, and the list holds each that no other peer holds, once per old row. |
| CidTable.Database.Reconcile | crawler/worker.go:226-270 | It commits if and only if every save and query that it makes and the commit succeed, and otherwise the table is unchanged; on commit every CID of the graph has its old row count plus one, every other loaded CID of p has none if a delete for it succeeded and is untouched if not, other peers' rows are untouched, and the unpin list is exact, or empty after a failed load. |
| CidTable.UnpinnedAtLastReference | crawler/worker.go:244-264 | A successful reconciliation unpins exactly the CIDs referenced by some peer before and by none after. |
| CidTable.LiveIsNewGraph | crawler/worker.go:226-266 | A successful reconciliation leaves p holding exactly its new graph and every other peer what it held. |
| CidTable.ListedButReferenced | crawler/worker.go:246-262 | A CID on the unpin list is still referenced after the commit if and only if no delete for it succeeded. |
| CidTable.FailedDeleteIsListed | crawler/worker.go:246-262 | A transaction whose delete fails lists a CID that stays referenced. |
| CidHistory.LiveIsLastGraph | crawler/worker.go:214-270 | In every run from an empty table a peer's live CIDs are exactly the graph of its last committed job. |
| CidHistory.UnpinsAtLastReference | crawler/worker.go:226-301 | In every run a CID is unpinned by an attempt if and only if that attempt took its last reference away. |
| CidHistory.NothingLeaks | crawler/worker.go:214-301 | In every run each CID ever recorded is still referenced, or was put on an unpin list at the commit after which nothing has referenced it. |
| CidHistory.ArrivalsBalanceUnpins | crawler/worker.go:214-301 | The number of times a CID became referenced equals the number of times it was unpinned, plus one if it is referenced now. |
| CidHistory.DelayedUnpinSafety | crawler/worker.go:290-301 | An unpin carried out some commits after the one that decided it hits a referenced CID if and only if one of the commits in between recorded the CID and its peer has not committed since. |
| CidHistory.LateUnpinHitsReferenced | crawler/worker.go:290-301 | A run in which a CID is listed for unpinning, recorded by another peer, and referenced when the unpin is carried out. |
| CidTable.Database.UnpinPeer | crawler/crawler.go:204-213 | The CIDs that a ban and the hourly loop ask to unpin are exactly the peer's live CIDs, once per row; the rows stay. |
| Unpinning.UnpinBanned | crawler/crawler.go:204-213 | After a ban the nodes are asked in turn, for each live CID of the peer, up to the first whose API cannot be had. |
| CidHistory.PeerUnpinSafety | crawler/crawler.go:204-213 | In every run, what a ban or the hourly loop unpins for a peer hits a CID that another peer holds if and only if the last committed jobs of both peers recorded it. |
| CidHistory.DelayedPeerUnpinSafety | crawler/crawler.go:204-213 | In every run, what is unpinned for a peer some commits after it was read is then held by another peer, or by any, if and only if the last committed jobs at the two times recorded it. |
| CidHistory.SharedCidIsUnpinned | crawler/crawler.go:353-362 | A reachable table in which unpinning one peer's CIDs hits a CID that another peer references. |
| CidHistory.GoodCommitRepairs | crawler/worker.go:227-266 | In every run with any failures a peer holds at least its last committed graph, at most what it held before besides, and exactly that graph if the load and the deletes of that commit succeeded. |
| ProcessJob.Crawler.Process | crawler/worker.go:53-302 | The effects of a job that returns are its pin and unpins, then the announcements of all it found in reverse order, then the record put, then one update of the last crawl time; it commits exactly when its saves, queries and commit succeed, and otherwise unpins nothing and leaves the table; a job that hangs in a failed API lookup has no effect, and it hangs only if a lookup before the walk fails or a walk it can make ends in one. |
| ProcessJob.HangCondition | crawler/worker.go:331-394 | A job hangs for certain if a lookup before the walk fails, or if every walk it can make ends in a failed lookup. |
| ProcessJob.WalkHangsExactly | crawler/worker.go:396-423 | The walks that hang are those that some choices of the ranges list, with every fetch but the last successful and the lookup of the last failing. |
| ProcessJob.Crawler.Resolve | crawler/worker.go:91-136 | The early returns are taken exactly when the job is not to crawl, and leave the job holding the right record; the job hangs there exactly when the API lookup for the root fails. |
| ProcessJob.Crawler.CrawlListings | crawler/worker.go:156-188 | The listings deferred are those that decode and load, in index order; the CIDs kept are all that decode. |
| ProcessJob.Crawler.BuildGraph | crawler/worker.go:190-212 | The graph begins with a walk that returned and holds the root, both links and every decodable listing even after a failed walk, nothing else but what the root reaches, and all of that if every fetch succeeds; it hangs only in a walk that the job can make and whose last lookup fails. |
| ProcessJob.Crawler.CarryOut | crawler/worker.go:272-301 | After a commit, unless the API of the crawling node cannot be had, the root is pinned if configured and each entry of the unpin list is carried to the nodes in turn. |
| Unpinning.UnpinCid | crawler/crawler.go:399-408 | The nodes are asked to unpin in order until the first whose API cannot be had, whatever they answer. |
| Unpinning.RequestsExact | crawler/crawler.go:399-408 | A node is asked to unpin a CID if and only if for some entry of the CID the lookups for that node and all before it succeed. |
| ProcessJob.Crawler.Announce | crawler/worker.go:148-184 | The deferred announcements run last registered first. |
| ProcessJob.Crawler.Conclude | crawler/worker.go:63-86 | The outermost deferred call puts the record if asked for and then updates the last crawl time. |
| ProcessJob.EventsInOrder | crawler/worker.go:63-86 | On every exit of a job that returns the update of the last crawl time happens exactly once and last, and no pin or unpin follows an announcement or the record put. |
| ProcessJob.JobUnpins | crawler/worker.go:272-301 | A job whose load and deletes succeed asks a node to unpin a CID if and only if its commit took the last reference away, the API was available after it, and for some entry of the CID the lookups for that node and all before it succeeded. |
| ProcessJob.AllNodesUnpin | crawler/crawler.go:399-408 | If every lookup succeeds, every node is asked to unpin exactly the CIDs that lost their last reference. |
| ProcessJob.UnpinIsLost | crawler/worker.go:272-301 | A job that commits and takes the last reference to a CID away, and after which no node is asked to unpin it. |
| ProcessJob.RequiredIsRecorded | crawler/worker.go:199-212 | Whenever a job commits, the peer's live CIDs include the root, both links and every decodable listing. |
| ProcessJob.JobsFormHistory | crawler/worker.go:214-301 | Every run of whole jobs whose loads and deletes succeed is a run of reconciliations, so the properties of such runs hold of it. |
| Transactions.Store.Update | repo/database.go:98-108 | The wrapper runs the closure on a working copy and publishes it if the closure and the commit succeed, and otherwise leaves the table. |
| Transactions.RunIsSerializable | repo/database.go:84-108 | For any number of callers interleaved statement by statement, the committed table is at every point that of a serial run of whole closures, in one order that is only extended, and each caller's outcome is that of the serial run. |
| Transactions.SerialOrderIsRealTime | repo/database.go:84-108 | A call that returned before another took the lock precedes it in the serial order. |
| Transactions.FailureLeavesNoTrace | repo/database.go:88-93 | A call whose closure or commit failed changes nothing in the table. |
| Transactions.SomeStepIsEnabled | repo/database.go:85-86 | As long as some caller has not returned, some caller can take a step. |
| JobTransactions.ClosureEffect | crawler/worker.go:226-266 | The closure of a job, run statement by statement through the wrapper, has the effect of the reconciliation under any failures, and commits exactly when that does. |
| JobTransactions.WorkersAreTrials | crawler/worker.go:226-270 | However the statements of any number of workers interleave, the committed table is at every point the last of a serial run of reconciliations, and each worker is given the outcome and the unpin list of its own. |
| JobTransactions.WorkersFormHistory | crawler/worker.go:226-270 | If loads and deletes succeed, that serial run is a history, so the properties of histories hold of interleaved workers. |
| Peers.PeerStore.UpdatePeer | crawler/crawler.go:411-427 | A connection sets the last-seen time, creating the row with its first-seen time if there is none; a failed load or save leaves the table. |
| Peers.PeerStore.SaveRecord | crawler/pubsub.go:100-119 | A record updates or creates the row, and the ban flag returned is the row's, or false if the row cannot be loaded. |
| Peers.PeerStore.BanNode | crawler/crawler.go:186-203 | A ban sets only the flag, creating the row if there is none; if the load, the save or the query for CIDs fails it returns an error and leaves the table. |
| Peers.PeerStore.UnbanNode | crawler/crawler.go:220-231 | An unban clears only the flag, creating the row if there is none; a failed load or save leaves the table. |
| Peers.PeerStore.NoteCrawl | crawler/worker.go:70-84 | The last crawl time, and the last pin time if asked for, are set in the peer's row, or under the empty id if there is none; a failed load or save leaves the crawl unnoted. |
| PeerMachine.InvReachable | crawler/crawler.go:261-378 | Whatever a run from an empty table reaches keeps the invariant that the properties of runs start from: rows under their own id with times in order, no record under the empty id, and jobs only for named peers. |
| PeerMachine.RowsMoveForward | crawler/crawler.go:411-424 | Over every interleaving of the writers rows never vanish, the first-seen time is fixed and not after the last-seen time, and the other times never go back. |
| PeerMachine.OnlyBansBan | crawler/crawler.go:186-231 | A run without a ban or unban of a peer leaves its flag as it was. |
| PeerMachine.UnbanUndoesBan | crawler/crawler.go:186-231 | A ban followed by an unban leaves the row as it was, but not banned, and no other row changed. |
| PeerMachine.JobsAreConserved | crawler/crawler.go:309-329 | An item in flight stays so, for the same peer and never back a stage, until its job finishes or its snapshot entry is dropped as undecodable, and then it does not come back. |
| PeerMachine.AdmissionExact | crawler/crawler.go:156-179 | A step puts a job for a peer in flight if and only if it is a producer's step for that peer and the peer is not banned or its row could not be loaded. |
| PeerMachine.BanDrains | crawler/crawler.go:181-200 | While a peer stays banned, every job for it that is still in flight was in flight at the start, across all producers and workers. |
| PeerMachine.WaitingJobOutlivesBan | crawler/crawler.go:181-200 | A job waiting when its peer is banned can still be taken and run, and its crawl is noted. |
| PeerMachine.UnloadableRowIsQueued | crawler/pubsub.go:100-129 | A banned peer is queued when its row cannot be loaded. |
| Query.BatchExists | crawler/crawler.go:296-304 | Either query always has an answer, of the length of the limit or of the number of peers that meet its conditions. |
| Query.ChosenExactly | crawler/crawler.go:330-339 | Some answer of a query holds a peer that meets its conditions if and only if fewer than the limit come strictly before it. |
| Query.LeftOutExactly | crawler/crawler.go:294-304 | Some answer of a query leaves out a peer that meets its conditions if and only if as many as the limit come before it or level. |
| Scheduler.NotHandedOutForAWeek | crawler/crawler.go:297-303 | A known peer whose crawl was noted is not handed out by the old-node loop for seven days. |
| Scheduler.UnknownPeerIsForgotten | crawler/worker.go:70-81 | The crawl of a peer without a row leaves it without a row. |
| JobMachine.ReturnIsFinish | crawler/worker.go:60-86 | Whichever way a job returns, what its events do to the peer table is one noting of its crawl, or nothing if the update fails. |
| JobMachine.EveryExitDelaysTheNext | crawler/worker.go:60-86 | After a job that returned by any exit and whose update was saved, a known peer is not handed out for seven days. |
| Scheduler.HandedOutExactly | crawler/crawler.go:294-304 | A tick can hand a peer out if and only if it is eligible and fewer than ten eligible peers were crawled before it. |
| Repeats.RepeatsExactly | crawler/worker.go:60-86 | After any run that ends with a finished crawl, some continuation hands the peer out within seven days of the crawl if and only if it had no row (and the clock had left zero), or the update failed and the last noted crawl was older, and the update took no longer than a week. |
| Repeats.NewcomerIsHandedOut | crawler/pubsub.go:101-116 | In every state the first record of an unknown peer lets the next tick hand it out, whoever else is eligible. |
| Repeats.UnsavedCrawlExactly | crawler/worker.go:70-84 | After a crawl whose update failed the next tick can hand the peer out if and only if it is still eligible with fewer than ten strictly before it. |
| Repeats.UnknownPeerIsHandedOutAtOnce | crawler/worker.go:70-81 | After any run, a peer without a row can publish its first record and be handed out in the same moment. |
| Repeats.UnsavedCrawlIsRepeated | crawler/worker.go:70-84 | A run from an empty table in which the crawl of a known peer is not saved, and is repeated within the week. |
| Scheduler.PassedOverExactly | crawler/crawler.go:294-304 | A tick can pass an eligible peer over if and only if ten eligible others are before it or level. |
| Scheduler.NewcomerOvertakes | crawler/pubsub.go:101-116 | The first record of an unknown peer puts it ahead of every known peer. |
| Scheduler.OnlyOvertakersGetAhead | crawler/crawler.go:294-329 | While a peer stays eligible and is not crawled, nobody newly gets before it or level but those that a sighting, record or unban has made eligible. |
| Scheduler.TenFewerEachTick | crawler/crawler.go:294-329 | Each fair tick that passes a peer over uses up ten of the peers that were ahead at the first tick or have overtaken since. |
| Scheduler.NoStarvation | crawler/crawler.go:294-329 | With k eligible peers ahead or level and at most o overtaking, a peer that stays in line is handed out within (k + o) / 10 + 1 ticks; nothing is asked of the ticks after it has been. |
| Starvation.StarvesForever | crawler/crawler.go:294-329 | From any point of any run at which a peer is eligible, and for every n that its record outlasts, n fair ticks a minute apart can pass it over, each batch crawled before the next tick, and nothing in flight at the end that was not at the start. |
| Starvation.StarvesFromStart | crawler/crawler.go:294-329 | Such runs exist from a crawler with an empty table. |
| HourlyLoop.SelectedExactly | crawler/crawler.go:330-339 | A tick of the hourly loop can select a peer if and only if its record has not expired, it was seen within 90 days, and fewer than ten such peers were crawled before it. |
| HourlyLoop.AlwaysSelectedExactly | crawler/crawler.go:330-339 | It has to select the peer if and only if, besides, fewer than ten others were crawled before or at the same time. |
| HourlyLoop.DeadPeersAreKept | crawler/crawler.go:330-339 | An expired peer, or one not seen for 90 days, is never selected. |
| HourlyLoop.UnpinBatch | crawler/crawler.go:344-364 | A tick asks the nodes in turn to unpin everything live of the selected peers whose records load, all of it still referenced, and leaves the rows. |
| HourlyLoop.DropsLastGraphs | crawler/crawler.go:344-364 | In every run that is the graph of the last committed job of each selected peer. |
| HourlyLoop.LivePeerLosesPins | crawler/crawler.go:330-364 | A run in which a peer that was just seen and just crawled has to be selected, and in which every node is asked to unpin its whole graph if the lookups succeed. |
| DuplicateFilter.Filter.Receive | crawler/pubsub.go:58-75 | A message is let through if and only if its id is not in the set, and then enters the set with a timer one minute ahead. |
| DuplicateFilter.Filter.Expire | crawler/pubsub.go:71-75 | A due timer takes its own id out of the set and nothing else. |
| DuplicateFilter.InvHolds | crawler/pubsub.go:36-75 | In every run an id is in the set exactly when it has one expiry ahead, only ids that were let through are held back, and two acceptances of an id are at least a minute apart. |
| DuplicateFilter.RateBound | crawler/pubsub.go:36-75 | In every run any interval of L minutes holds at most floor(L) + 1 acceptances of one id. |
| SubscriptionHub.Hub.NotifySubscribers | crawler/crawler.go:391-397 | In any order of the map, one send for each entry; the call is a read lock, these sends, and a read unlock of the machine. |
| SubscriptionHub.Hub.StoreSubscription | crawler/crawler.go:252-257 | The hub goes where the machine goes by the lock, the store and the unlock of this call. |
| SubscriptionHub.Hub.CloseSubscription | crawler/crawler.go:239-249 | The hub goes where the machine goes by the lock, the close, the delete if the key holds anything, and the unlock of this call. |
| SubscriptionHub.NoPanic | crawler/crawler.go:235-258 | Over every interleaving, with colliding keys too, nothing is sent on a closed channel and no channel is closed twice. |
| SubscriptionHub.DeliveredExactlyOnce | crawler/crawler.go:391-397 | A completed notification has sent its object exactly once to each subscriber present at its read lock, and to nobody else. |
| SubscriptionHub.PresentAtReadLock | crawler/crawler.go:391-397 | What a notification takes for present is the hub as its read lock found it. |
| SubscriptionHub.RemainingAreSubscribed | crawler/crawler.go:391-397 | What a notification has yet to send to stays subscribed until it has. |
| SubscriptionHub.CollisionLosesChannel | crawler/crawler.go:236-257 | Storing under a key in use leaves the earlier subscriber's open channel out of the hub. |
| SubscriptionHub.LostStaysLost | crawler/crawler.go:236-257 | Nothing is ever sent on such a channel again and nothing closes it. |
| SubscriptionHub.LostExactly | crawler/crawler.go:236-257 | In every run the open channels that nobody can reach any more are exactly those that a later subscription overwrote. |
| SubscriptionHub.KeptExactly | crawler/crawler.go:236-257 | A subscribed channel is held until it is closed if and only if no later subscription takes its key. |
| SubscriptionHub.FirstCloseHitsSecond | crawler/crawler.go:239-249 | After a collision the first subscriber's close closes and removes the second subscriber's channel, and the first stays lost. |
| SubscriptionHub.KeysCollide | crawler/crawler.go:235-258 | A run from the start in which two subscriptions get the same key and the first channel is lost. |
| Watchers.WatchersMatchCalls | crawler/worker.go:331-394 | Without shutdown and API failure the live watchers are exactly the calls between spawn and rendezvous. |
| Watchers.EveryCallCanReturn | crawler/worker.go:331-394 | Then every call in its deferred send can return, and none is left when all have returned. |
| Watchers.FailedApiNeverReturns | crawler/worker.go:334-342 | A call whose API lookup fails never returns. |
| Watchers.ReturnsIffWatched | crawler/worker.go:366-394 | A call in its deferred send has a run in which it returns if and only if its watcher is still there. |
| ConfigFile.CreateDefaultConfig | repo/config.go:242-273 | The file is the sample with its marked lines replaced; after a failed write it is a prefix of that. |
| ConfigFile.LinesUnique | repo/config.go:242-246 | There is only one way to cut a text into terminated lines and a last unterminated one, and the reader finds it. |
| ConfigFile.UnmarkedIsCopied | repo/config.go:270-272 | A text without a marked line is copied unchanged. |
| ConfigFile.RewriteKeepsOthers | repo/config.go:240-273 | The lines that are not marked are kept unchanged and in order. |
| ConfigFile.RewriteMultipliesMarks | repo/config.go:250-267 | Each marked line becomes one marked line per address. |
| ConfigFile.IdempotentExactly | repo/config.go:240-273 | For newline-free addresses, rewriting again changes nothing if and only if no line was marked or there is at most one address. |

## Left out

- IPFS, libp2p, IPNS validation, and the CID, protobuf and JSON codecs: a link graph, delivery oracles and decoding functions stand for them, and a CID's string form decodes back to it.
- SQL and gorm: the tables are a sequence of live rows and a map; soft deletion is removal from the live rows.
- The pin sets of the nodes: pins and unpins are events of a job, in order.
- The clock: readings are parameters that never go back, and the readings within one query of a background loop are one.
- FetchGraph.Fetch: does not model a failure to decode a key of the worklist, because keys are CIDs printed by the walk itself.
- Peers.PeerStore.BanNode: the unpinning that follows the transaction is Unpinning.UnpinBanned.
- HourlyLoop.UnpinBatch: does not model commits of jobs between the reads for two peers of one batch; each read alone is CidTable.Database.UnpinPeer.
- JobTransactions.WorkersAreTrials: takes the loop over the old records as one statement, because the number of its statements depends on the answer of the first; the lock is held throughout.
- SubscriptionHub.Hub.NotifySubscribers: runs alone; interleaved notifications are those of the machine.
- ProcessJob.Crawler.Process: does not model the loading of a listing (`GetListingByCID`), a call into another repository, beyond its answer.
- Shutdown of the pubsub listener and liveness of the subscription hub: sends block under the read lock, and a reader that stops reading can block everyone.
- Failures of the crawl ticker, garbage collection, gRPC and HTTP servers, the resolver, authentication, option parsing and the remaining configuration: I/O and one-branch code.
- ConfigFile.CreateDefaultConfig: does not model a write that fails half-way through one string.
