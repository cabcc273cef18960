# MSMP: verified models of its protocols and state machines

MSMP is a monitoring platform: a cluster of servers that elect a leader, agents and a web client that
fail over between them, an alert engine, metric retention, a task queue and an approval queue. This
project models those parts in Dafny and proves what they keep, over every run or every input. `dafny
verify dfyconfig.toml` checks all of it.

A class stands for each component that updates state in place. Its methods follow the source branch by
branch and are proved equal to a function, or to lie in a relation, on the component's abstract value.
The state machines are then built from those same functions and relations, so the theorems about whole
runs are theorems about the methods.

| files | what they model |
|---|---|
| `Addresses`, `Cluster`, `ClusterProtocol`, `ClusterScheduler`, `ClusterFailover` | membership, heartbeats and leader election: one node's view, then n nodes with pings in flight, lost, late and stray, and nodes that boot and crash; where the scheduler runs, and what the election settles on |
| `Retention`, `RetentionRuns`, `RetentionLoss`, `RetentionSurvival`, `RetentionTenants`, `RetentionRows` | downsampling and retention of metric samples: the loops, then over histories of inserts and cleanups conservation, what is lost when statements fail, how long rows and samples stay, which rows mix tenants, and row bounds |
| `CollectorPool`, `ChannelHealth` | the collection cycle with its semaphore, gates and wait group in every interleaving; a channel's failure counter |
| `HostEvents`, `AlertEngine`, `Escalation` | alert suppression, silencing and escalation over the host_events table |
| `AgentRouter`, `FailoverClient` | the agent's circuit-breaking router and the web client's failover loop |
| `TaskServer`, `TaskProtocol` | task handlers, then handlers and agents together with lost replies, lost reports, restarts, cancels and deletes |
| `Approvals` | tool-call approvals with their executing goroutines |
| `RateLimit` | the fixed-window rate limiter and the login lockout |
| `SelfUpdate` | the file steps of the agent's self-update |
| `PluginConfig`, `Csv`, `CommandFilter`, `Options` | masked plugin settings, the CSV export, command normalisation |

## Where the code and its documentation part

The models follow the code. Where that makes a documented promise false, a lemma gives the
counterexample, and where there is one, the exact condition under which the promise holds.

- `.monkeycode/specs/multi-node-load-balancing/design.md` promises that shared jobs run on one node. The gate at
  boot never skips the scheduler (`GateNeverSkips`), so it runs on every node that is up and has a credential
  service (`SchedulersAreTheNodesUp`). What holds is that a node yields to any smaller one it holds alive
  (`LargerYields`), and that a failover settles.
- A failover settles on a leader exactly when some configured address is no larger than every other one with
  its trailing slashes cut (`FailoverElects`, `LeaderIffSmallest`). Slash-free addresses always qualify
  (`FailoverConverges`); "a/" with "a." does not (`SlashedAddressLeaderless`), "a/" with "b" does.
- `NextNode` moves the index before the outcome is recorded, so an outcome is charged to the node that
  produced it exactly when there is one node (`ChargedToServerIff`). With one node of any n down, all its
  failures break the node after it, which is never used again from round 3n on (`HealthyNodeStarves`), and such
  runs exist for every n >= 2 (`StarvationHappens`).
- The comment at `server/controllers/retention.go:49` says that expired raw samples have been downsampled.
  A raw sample that no row counts is deleted exactly when the raw cutoff reaches it and the downsampling does
  not take it: because it is too young for that, or because listing the hosts failed, or because for no
  (host, tenant) pair of its host both the read and the insert succeeded (`LostIff`). The shipped settings do
  not prevent that (`FailedListingLoses`, `FailedInsertLoses`). When every statement succeeds it comes down to
  a sample between the two cutoffs (`DropsIffGap`), of which there is none when raw days are configured at
  least as long as downsampling waits (`NoGapIffDays`). A delete that fails after its insert counts samples
  twice (`PassConservesIff`, `FailedDeleteCountsTwice`).
- Being counted in a row does not keep a sample: the row itself goes with the first working row delete whose raw
  cutoff is beyond its start (`RowSurvivesIff`). With equal day settings every row is deleted by the cleanup
  that creates it (`EqualDaysKeepNoRow`). Kept are the samples at least a bucket's width younger than every raw
  cutoff so far (`RecentIsPresent`).
- Hosts are listed per tenant but read without it, so a row can carry one tenant's label over another's
  samples, exactly when a host with inserted rows has old samples of several tenants (`RowTenantsIff`).
- The retry count of an escalation rule is looked up with a message that is never stored
  (`LookupNeverStored`), so any positive count means "once".
- The comment at `server/services/mcp_service.go:50` says cleanup removes rejected approvals. It never does
  (`CleanupRemovesOnlyFinished`). An execution stamps its approval before it takes the mutex, so one that is
  past its stamp can be removed while it still waits to write back (`ExecutingCanBeRemoved`).
- The periodic cleaner of login failures uses 600 s whatever lockout is configured. For every maximum it is
  invisible exactly when the lockout is no longer than that (`CleaningInvisibleIff`).
- The comment at `server/services/mcp_tools.go:152` says that variants of spacing are caught. The normal form drops
  tabs and line breaks, so words with only those between them fuse. `rm` and `-rf` are refused when a space is
  between them, and amid quiet text only then (`SeparatorCaughtIff`). A shell after a bar, or a destroyer after a
  separator, is seen exactly when nothing is kept after its name or what is kept does not start like a word
  (`OpenerMatchesIff`, `PipeVerdictIff`, `SequenceVerdictIff`); a tab and another word hide it (`FusedWordsPass`).
- The result handler accepts a report in any status (`ReportLegalIff`); only agents that report what they
  fetched keep statuses in order (`StatusMovesLegally`).
- The header line of a CSV export is not quoted, so the whole file reads back exactly when no title holds a
  quote, comma or line break (`ExportReadsBackIff`); the data lines always do (`DataLinesReadBack`).

## Model

| member | source | states |
|---|---|---|
| Cluster.ClusterState.constructor | server/clustering/cluster.go:40-63 | a node starts with an empty table and knows itself |
| Cluster.ClusterState.RegisterNode | server/clustering/cluster.go:80-99 | a ping makes the trimmed sender alive as of now and changes nothing else |
| Cluster.ClusterState.RefreshNodes | server/clustering/cluster.go:102-109 | the known nodes are the configured ones and this node; the table is untouched |
| Cluster.ClusterState.NodeAlive | server/clustering/cluster.go:119-127 | true exactly for this node and live entries, up to trailing slashes |
| Cluster.ClusterState.DeregisterDeadNodes | server/clustering/cluster.go:130-140 | exactly the entries silent for over 30 s, this node's excepted, become dead; none is removed, in any map order |
| Cluster.ClusterState.GetHealthyNodes | server/clustering/cluster.go:143-154 | a duplicate-free list of the live entries, with this node added when none stands for it |
| Cluster.SortStrings | server/clustering/cluster.go:168-172 | a sorted permutation in lexicographic order |
| Cluster.ClusterState.LeaderAddress | server/clustering/cluster.go:175-183 | the least healthy address, whatever order the map is visited in |
| Cluster.ClusterState.IsLeader | server/clustering/cluster.go:158-166 | true exactly when no live entry is smaller than this node's own address |
| Cluster.LeastIsSelfIffLeads | server/clustering/cluster.go:143-183 | the least healthy address is this node exactly when no live entry is smaller, for any address string |
| Cluster.ClusterState.SendHeartbeats | server/clustering/cluster.go:251-264 | one ping to each known node other than this one, in order |
| Cluster.HeartbeatsReach | server/clustering/cluster.go:251-264 | the pings of a round reach exactly the other known nodes |
| ClusterProtocol.StepKeepsOk | server/clustering/cluster.go:80-140 | every step keeps each view well formed: dead entries have been silent for over 30 s, and live ones were heard within 30 s of the last sweep |
| ClusterProtocol.ReachableOk | server/clustering/cluster.go:80-140 | that invariant holds in every reachable state of the cluster |
| ClusterProtocol.LargerYields | server/clustering/cluster.go:156-183 | in every reachable state a node that holds a smaller one alive does not lead, whatever the smaller one knows |
| ClusterProtocol.NeverTwoLeaders | server/clustering/cluster.go:156-183 | so two nodes that hold each other alive are never both leader |
| ClusterScheduler.GateNeverSkips | server/main.go:111-119 | in every run every booting node leads at the gate, so none skips the scheduler |
| ClusterScheduler.HeldBackIff | server/main.go:111-116 | the gate holds a node back exactly when it knows two nodes and holds a smaller one alive |
| ClusterScheduler.SchedulersAreTheNodesUp | server/main.go:111-119 | in every reachable state the scheduler runs on exactly the nodes that are up and have a credential service |
| ClusterScheduler.OneSchedulerIff | server/main.go:111-119 | one scheduler runs exactly when one such node is up |
| ClusterScheduler.FreshNodesBothLead | server/main.go:111-119 | two freshly booted nodes both lead |
| ClusterFailover.StableThroughout | server/clustering/cluster.go:242-264 | while a fixed set of nodes ticks and its pings arrive in time, every other live node has been heard or has a ping on its way, at every instant |
| ClusterFailover.HeardAlive | server/clustering/cluster.go:18-21 | from 10 s plus the delay on, live nodes hold each other alive without interruption |
| ClusterFailover.OutsidersDead | server/clustering/cluster.go:130-140 | 40 s plus the delay after the phase starts only entries for other live nodes are held alive |
| ClusterFailover.LeadsIffSmallest | server/clustering/cluster.go:143-166 | from then on a node leads exactly when its configured address is no larger than every other live address with its slashes cut |
| ClusterFailover.FailoverElects | server/clustering/cluster.go:156-183 | for addresses that differ once trimmed, all nodes but the first name the first, only the first can lead, and some node leads exactly when the configuration has a smallest address |
| ClusterFailover.FailoverConverges | server/clustering/cluster.go:156-183 | with slash-free addresses every live node computes the same leader, the least live address, and that node alone leads |
| ClusterFailover.StablePhaseGoesOn | server/clustering/cluster.go:242-249 | the phase never blocks: the clock may advance, or a due tick or delivery brings its next advance closer |
| ClusterFailover.PhaseReaches | server/clustering/cluster.go:242-249 | so every phase can be continued to any time |
| ClusterFailover.LeaderIffSmallest | server/clustering/cluster.go:40-63 | every configuration has a run that boots it and settles, with a leader exactly when it has a smallest address |
| ClusterFailover.SlashedAddressLeaderless | server/clustering/cluster.go:158-166 | "a/" and "a." settle without a leader in a run where every ping is on time |
| Retention.Store.constructor | server/controllers/retention.go:67-171 | empty tables and an empty history |
| Retention.Store.ReadOldSamples | server/controllers/retention.go:105-114 | a host's old samples, each once, in order of time |
| Retention.Store.GroupByBucket | server/controllers/retention.go:116-137 | one accumulator per non-empty bucket, equal to the fold of that bucket's samples |
| Retention.Store.BuildRows | server/controllers/retention.go:139-156 | one row per bucket covering all of the host's old samples, each in one row, in any map order |
| Retention.Store.DownsampleHost | server/controllers/retention.go:104-168 | one host's pass: nothing when a read or insert fails, otherwise all its rows are in and, if the delete succeeds, its old samples are gone |
| Retention.Store.DownsampleOldSamples | server/controllers/retention.go:67-171 | a chain of host passes over all distinct (host, tenant) pairs with old samples |
| Retention.Store.DeleteOldRawSamples | server/controllers/retention.go:174-177 | exactly the raw samples before the cutoff go, and the count says how many |
| Retention.Store.DeleteOldDownsampled | server/controllers/retention.go:180-183 | exactly the rows before the cutoff go, and the count says how many |
| Retention.Store.DeleteExpired | server/controllers/retention.go:49-63 | both deletes use the raw cutoff |
| Retention.Store.RunDownsampleCleanup | server/controllers/retention.go:23-64 | one cleanup with the configured or default cutoffs, whatever statements fail |
| Retention.ConfiguredTimes | server/controllers/retention.go:24-39 | the cutoffs and the bucket width in milliseconds: 90 and 7 days before the two clock readings and 5 minutes where nothing positive is configured |
| RetentionRuns.ConservedIffDeleted | server/controllers/retention.go:157-167 | a host pass counts every sample exactly once exactly when its delete does not fail after its insert |
| RetentionRuns.PassConservesIff | server/controllers/retention.go:104-168 | a whole pass conserves every sample exactly when none of its visits inserts and then fails its delete |
| RetentionRuns.FailedInsertKeepsRaw | server/controllers/retention.go:157-160 | a failed insert leaves the host's raw samples, and everything else, as they were |
| RetentionRuns.ChainTakesAllOld | server/controllers/retention.go:85-114 | when every statement succeeds no raw sample older than the cutoff is left, although hosts are listed per tenant and read without it |
| RetentionRuns.CleanupKeepsConserved | server/controllers/retention.go:23-64 | a cleanup conserves every sample and leaves those after both cutoffs raw |
| RetentionRuns.HistoryConserves | server/controllers/retention.go:104-168 | over every history without a delete that fails after its insert, each sample ever stored is raw, or was dropped by raw retention, or was counted in exactly one row ever created |
| RetentionRuns.HistoryConsistent | server/controllers/retention.go:116-156 | in every history, whatever fails, every row ever created is the aggregate of the samples it counts |
| RetentionRuns.RecentStaysRaw | server/controllers/retention.go:104-168 | samples at or after every cutoff so far are still raw, whatever failed |
| RetentionRuns.FailedDeleteCountsTwice | server/controllers/retention.go:163-167 | after a failed delete the next pass counts the same samples again |
| RetentionLoss.LostIff | server/controllers/retention.go:38-55 | for every plan, whatever statements fail: an uncounted raw sample is gone uncounted exactly when the raw delete reaches it and the downsampling did not take it |
| RetentionLoss.DroppedIff | server/controllers/retention.go:42-55 | when no delete fails after its insert, exactly those samples are dropped |
| RetentionLoss.DropsIffGap | server/controllers/retention.go:38-55 | when every statement succeeds, something is dropped exactly when a raw sample lies between the two cutoffs |
| RetentionLoss.NothingDroppedIff | server/controllers/retention.go:42-55 | over every history whose deletes succeed, nothing has been dropped uncounted exactly when no cleanup met a sample it loses |
| RetentionLoss.NothingDropped | server/controllers/retention.go:49-55 | so no sample is dropped before a row has counted it when raw deletes come no earlier than downsampling and only after passes that did not fail |
| RetentionLoss.NoGapIffDays | server/controllers/retention.go:28-39 | the raw cutoff is never the later one exactly when raw days are configured at least as long as downsampling waits |
| RetentionLoss.FailedListingLoses | server/controllers/retention.go:90-95 | with the shipped settings a cleanup that cannot list its hosts still deletes an expired sample uncounted |
| RetentionLoss.FailedInsertLoses | server/controllers/retention.go:157-160 | so does one whose insert fails |
| RetentionSurvival.RowSurvivesIff | server/controllers/retention.go:57-63 | in every history, whatever fails, a row ever created is in the table exactly when no cleanup since, its own included, had a working row delete with a raw cutoff beyond the row's start |
| RetentionSurvival.EqualDaysKeepNoRow | server/controllers/retention.go:38-63 | when raw data is kept no longer than downsampling waits, a cleanup deletes every row it has just created |
| RetentionSurvival.PresentIff | server/controllers/retention.go:38-63 | a stored sample is still there, raw or in a row of the table, exactly when it is raw or a row that counted it outlives all cleanups since |
| RetentionSurvival.ExpiredIsGone | server/controllers/retention.go:49-63 | after a cleanup whose final deletes work nothing is left of a sample before its raw cutoff |
| RetentionSurvival.NothingVanishes | server/controllers/retention.go:23-64 | in every history, whatever fails, each sample ever stored is raw, or was dropped by raw retention, or was counted at least once |
| RetentionSurvival.RecentIsPresent | server/controllers/retention.go:23-64 | in every history, whatever fails, a sample at least a bucket's width younger than every raw cutoff so far is still there |
| RetentionTenants.RowTenantsIff | server/controllers/retention.go:90-120 | for every pass, each new row carries the tenant of all its samples exactly when every host whose rows go in has old samples of one tenant only |
| RetentionRows.RowCoversItsBucket | server/controllers/retention.go:118-136 | a row's bucket contains its samples, the divisor is their positive number and the process count is at least each of theirs |
| RetentionRows.ProcessIsLargest | server/controllers/retention.go:134-136 | the process count of a row is the largest of its samples: no smaller than any, attained by one, and 0 exactly when none is positive |
| RetentionRows.MeanIffNoOverflow | server/controllers/retention.go:128-150 | a memory column is the true integer mean exactly when the uint64 sum does not wrap |
| RetentionRows.MemoryWithinRange | server/controllers/retention.go:128-150 | without wrap-around memory means lie between the bucket's minimum and maximum |
| RetentionRows.UsedBelowTotal | server/controllers/retention.go:128-150 | without wrap-around used memory stays at or below total memory |
| RetentionRows.AveragesWithinRange | server/controllers/retention.go:126-153 | the averaged columns lie between the bucket's minimum and maximum |
| RetentionRows.RowsBounded | server/controllers/retention.go:117-156 | whatever else fails than deletes after inserts, the number of rows of a (host, bucket) pair follows how far the last cutoff has passed the bucket |
| RetentionRows.AtMostTwoRows | server/controllers/retention.go:117-156 | over such runs at least one interval apart a (host, bucket) pair gets at most two rows |
| CollectorPool.StepKeepsInv | server/controllers/channels.go:389-416 | every channel and wait-group step keeps the semaphore, wait group and gates counting what they are for |
| CollectorPool.BoundedAndExclusive | server/controllers/channels.go:389-416 | in every interleaving at most eight collections run, and at most one per host |
| CollectorPool.NoDeadlock | server/controllers/channels.go:397-416 | until the cycle returns some step is enabled in every reachable state |
| CollectorPool.CycleTerminates | server/controllers/channels.go:397-408 | every interleaving of n jobs ends within 8n + 2 steps |
| CollectorPool.ReturnedIsClean | server/controllers/channels.go:397-416 | when the cycle returns all slots and gates are free and every host with a job had a collection attempt |
| ChannelHealth.ChannelBinding.CollectHost | server/controllers/channels.go:410-467 | the binding's counter, status and enabled flag after each outcome |
| ChannelHealth.DisabledIffInARow | server/controllers/channels.go:427-465 | a binding is disabled, with one event, exactly after five failures without a saved collection in between, or four when saving the count also updates the loaded struct |
| AlertEngine.Engine.IsAlertSuppressed | server/controllers/alert_engine.go:14-26 | true exactly when an 'alert' row of the host, metric and level lies within the window, 30 minutes for non-positive ones |
| AlertEngine.Engine.FindWindow | server/controllers/alert_engine.go:92-109 | the host's suppression row wins over the global one, and 30 minutes over neither |
| AlertEngine.Engine.EvaluateAlerts | server/controllers/alert_engine.go:69-133 | each firing rule adds one row: suppressed, silenced or alert, in rule order |
| AlertEngine.RuleWrites | server/controllers/alert_engine.go:76-130 | in the fields of request and rule: a rule adds one row exactly when it is enabled, of the tenant, and the cpu, memory or disk number stands in the stated order to the threshold; the row's kind and text follow from suppression and silencing |
| AlertEngine.WindowIs | server/controllers/alert_engine.go:92-109 | the window is that of the first row for the host, else of the first global one, else 30 minutes; a window that is not positive counts as 30 minutes |
| AlertEngine.RulesTakeTurns | server/controllers/alert_engine.go:76-132 | each rule sees the rows of those before it |
| AlertEngine.AlertFoundUnderItsMetric | server/controllers/alert_engine.go:22 | the LIKE match finds an alert under its own metric and no other |
| AlertEngine.AlertsSpaced | server/controllers/alert_engine.go:69-133 | with a fixed window any two alerts of a host, metric and level are at least the window apart, in every history |
| AlertEngine.AlertsSpacedByWindow | server/controllers/alert_engine.go:69-133 | with windows that change freely, each alert lies at least the window in force at its own evaluation after every earlier one |
| AlertEngine.OnlyAlertsSuppress | server/controllers/alert_engine.go:46-55 | rows of other kinds never suppress |
| AlertEngine.AlertsRecur | server/controllers/alert_engine.go:111-130 | while a rule keeps firing at least every d, an alert is followed by another within the window plus d: suppression never locks itself |
| Escalation.Checker.OldestOverdue | server/controllers/alert_engine.go:155-161 | the min(10, k) oldest of the k overdue unacknowledged alerts |
| Escalation.Checker.EscalateOne | server/controllers/alert_engine.go:163-191 | below the retry limit one escalation row is added and the alert acknowledged, otherwise nothing happens |
| Escalation.Checker.EscalateOverdue | server/controllers/alert_engine.go:152-195 | one rule escalates its oldest overdue alerts |
| Escalation.Checker.CheckEscalations | server/controllers/alert_engine.go:144-196 | the enabled rules take effect one after another |
| Escalation.MessagesDiffer | server/controllers/alert_engine.go:155-179 | escalation messages of different alerts differ, so #12 is never taken for #123 |
| Escalation.LookupNeverStored | server/controllers/alert_engine.go:163-179 | the message looked up is never one that is stored |
| Escalation.PickEscalatesIff | server/controllers/alert_engine.go:163-190 | a selected alert is escalated and acknowledged exactly when the rule allows at least one retry |
| Escalation.EscalatedAtMostOnce | server/controllers/alert_engine.go:144-196 | over every history each alert gets at most one escalation row |
| Escalation.CheckAcknowledgesOldest | server/controllers/alert_engine.go:155-190 | a check acknowledges the min(10, k) oldest of k overdue alerts and nothing else |
| Escalation.CheckTakesOnlyWarranted | server/controllers/alert_engine.go:155-191 | a row newly acknowledged is an alert for which an enabled rule has the tenant and level and whose wait is over; each new escalation row carries the tenant and host of such an alert and names its level and the next |
| Escalation.CheckTakesAllWarranted | server/controllers/alert_engine.go:155-190 | with one enabled rule that allows a retry and at most ten such alerts, a check acknowledges all of them |
| Escalation.LevelsRise | server/controllers/alert_engine.go:199-208 | info rises to warning, warning to critical, any other level stays |
| Escalation.CheckDrainsTen | server/controllers/alert_engine.go:155-190 | of the alerts overdue at a fixed time each later check leaves ten fewer, or none |
| Escalation.AnyCheckDrainsTen | server/controllers/alert_engine.go:152-195 | whatever other rules are enabled, a check leaves at least ten fewer of an enabled rule's backlog, or none |
| Escalation.MixedBacklogDrained | server/controllers/alert_engine.go:144-196 | with several enabled rules each backlog of k is fully acknowledged after ceil(k / 10) checks, if not before |
| Escalation.BacklogDrained | server/controllers/alert_engine.go:144-196 | with one enabled rule a backlog of k is fully acknowledged after ceil(k / 10) checks and not before |
| AgentRouter.ClusterRouter.constructor | agent/common/router.go:22-47 | the hosts of the setting, all of them and in their order, or localhost:8080 for a blank one; nothing has failed yet |
| AgentRouter.ConfiguredList | agent/common/router.go:23-35 | any list of hosts, with white space around them, slashes after them and blank parts between them, joined by commas, comes out as those hosts in that order |
| AgentRouter.AddressesInOrder | agent/common/router.go:31-34 | each host once, in its place, with "http://" in front exactly when it does not start with "http" |
| AgentRouter.ConfiguredAreAddresses | agent/common/router.go:23-38 | every configured node starts with "http", has no comma and no trailing slash, but for a part of slashes only |
| AgentRouter.SchemeIff | agent/common/router.go:30-33 | a part ends up with a scheme exactly when it has one or does not start with "http": "httpserver:8080" gets none |
| AgentRouter.ClusterRouter.NextNode | agent/common/router.go:51-73 | the first eligible node in cyclic order, or the one at the index when none is; the index stays in range and moves just past it |
| AgentRouter.ClusterRouter.RecordSuccess | agent/common/router.go:76-82 | the node at the index, and no other, is charged a success |
| AgentRouter.ClusterRouter.RecordFailure | agent/common/router.go:85-95 | the node at the index is charged a failure; three failures always leave a time until which it is disabled |
| AgentRouter.ClusterRouter.SelectNext | agent/common/router.go:98-101 | the index moves one place on, cyclically |
| AgentRouter.BrokenOnlyAsLastResort | agent/common/router.go:51-73 | a circuit-broken node is returned exactly when every node is broken and unexpired |
| AgentRouter.EligibleIsServed | agent/common/router.go:51-73 | a node that stays eligible is returned within n calls |
| AgentRouter.ChargedToServerIff | agent/common/router.go:57-86 | an outcome is charged to the node that produced it exactly when there is only one |
| AgentRouter.SuccessorIsCharged | agent/common/agent.go:334-410 | from registration on, with any one node down and any number of outcomes per round, the failure count of the node after it is the dead node's failure streak, and all other counts are 0 |
| AgentRouter.BrokenIsNeverReturned | agent/common/router.go:51-95 | once broken, that healthy node is never returned while rounds stay within a breaker period |
| AgentRouter.DeadNodeIsServed | agent/common/router.go:51-73 | the dead node is returned within every n rounds |
| AgentRouter.HealthyNodeStarves | agent/common/agent.go:347-410 | so for every n >= 2 the node after a dead one is never used from round 3n on |
| AgentRouter.StarvationHappens | agent/common/agent.go:347-410 | for every n >= 2 and every dead node there is such a run of 4n rounds |
| FailoverClient.ClientNode.Record | frontend/src/api/client.js:48-60 | a node's counters after a success or a failure; the third failure in a row disables it for a minute |
| FailoverClient.ClusterClient.constructor | frontend/src/api/client.js:18-28 | one fresh, distinct node per address, with one trailing slash cut and all counters zero |
| FailoverClient.ClusterClient.GetActiveNodes | frontend/src/api/client.js:30-33 | the active nodes in their configured order |
| FailoverClient.ActiveNodesInOrder | frontend/src/api/client.js:30-33 | one active node stands before another exactly as configured |
| FailoverClient.ClusterClient.Request | frontend/src/api/client.js:35-64 | the active nodes are tried in cyclic order from the current index up to the first success; exactly the tried ones change |
| FailoverClient.RoundVisitsEachOnce | frontend/src/api/client.js:44-46 | a round tries no node twice, and a full one tries all of them |
| FailoverClient.RejectedIffAllFail | frontend/src/api/client.js:44-63 | a request is rejected exactly when every active node has been tried once and failed |
| TaskServer.Server.CreateTasks | server/controllers/tasks.go:51-100 | one pending task per known host of the tenant whose insert succeeds, with fresh consecutive ids |
| TaskServer.Server.NextTask | server/controllers/tasks.go:158-185 | the oldest pending task of the host starts running; otherwise nothing changes |
| TaskServer.Server.ReportResult | server/controllers/tasks.go:187-216 | a visible task gets the reported result; anything but "success" counts as failed |
| TaskServer.Server.UpdateTask | server/controllers/tasks.go:130-142 | a cancel of a pending visible task makes it canceled and changes nothing else; no other request has an effect |
| TaskServer.Server.DeleteTask | server/controllers/tasks.go:143-145 | a visible task disappears from every later query |
| TaskServer.ReportLegalIff | server/controllers/tasks.go:200-215 | a report keeps the status order exactly for a running task, or one that already has that status |
| TaskProtocol.StepKeepsInv | agent/common/agent.go:397-433 | every step of servers, agents and network keeps a dispatched task in at most one hand and running |
| TaskProtocol.NoCommandRunsTwice | server/controllers/tasks.go:158-216 | in every run, with lost replies and reports and restarts, no command is executed twice |
| TaskProtocol.StatusMovesLegally | server/controllers/tasks.go:158-216 | statuses only move pending to running to success or failed, or pending to canceled |
| TaskProtocol.CanceledNeverRuns | server/controllers/tasks.go:138-140 | a canceled task stays canceled and its command is never run |
| TaskProtocol.CancelTakesEffect | server/controllers/tasks.go:138-140 | after a cancel of a pending task by its own tenant the task is canceled at once, and in every continuation of the run it is never handed out and never executed |
| TaskProtocol.ExecutedIff | agent/common/agent.go:413-429 | a held task is executed exactly when it is a shell command or a cache flush, and is reported failed otherwise |
| TaskProtocol.ServedInCreationOrder | server/controllers/tasks.go:171-177 | each host is served in creation order |
| Approvals.Service.CreateApproval | server/services/mcp_service.go:63-86 | a pending approval under the next id, or nothing when the arguments do not serialise |
| Approvals.Service.Approve | server/services/mcp_service.go:102-120 | granted exactly to an admin for a pending approval of the same tenant |
| Approvals.Service.Reject | server/services/mcp_service.go:123-137 | the same condition for rejecting |
| Approvals.Service.FinishExecution | server/services/mcp_service.go:153-196 | the unlocked writes and the write-back of an execution together; nothing happens to a removed approval |
| Approvals.Service.WriteStamp | server/services/mcp_service.go:158-159 | the unlocked time stamp, visible to cleanup at once |
| Approvals.Service.WriteBack | server/services/mcp_service.go:160-167 | the locked write-back leaves a removed approval removed |
| Approvals.WriteBackIsIdle | server/services/mcp_service.go:158-167 | what the goroutine holds is the stored approval, so the write-back changes nothing |
| Approvals.Service.RemoveCompletedApprovals | server/services/mcp_service.go:51-60 | exactly the non-pending approvals executed before the threshold go, in any map order |
| Approvals.StepKeepsInv | server/services/mcp_service.go:51-196 | every interleaved step, unlocked writes included, keeps decisions final and executions granted, and present until stamped |
| Approvals.IdsNeverReused | server/services/mcp_service.go:69-71 | a new approval's id is larger than every earlier one |
| Approvals.GrantedOnlyFromPending | server/services/mcp_service.go:106-115 | only an admin's Approve of a pending approval of the same tenant is a grant |
| Approvals.CalledOnceAfterApproval | server/services/mcp_service.go:102-196 | each tool call happens at most once, after a grant by its own tenant, and never for a rejected approval |
| Approvals.CleanupRemovesOnlyFinished | server/services/mcp_service.go:51-60 | cleanup removes exactly the approvals stamped before the threshold: no pending or rejected one, and an executing one only past its stamp |
| Approvals.ExecutingCanBeRemoved | server/services/mcp_service.go:153-168 | for every age there is a run in which an approval is removed while it is still executing |
| RateLimit.RateLimiter.CheckRateLimit | server/controllers/login_lockout.go:114-135 | the verdict and the new counter and window; both maps keep the same keys |
| RateLimit.RateLimiter.ResetRateLimit | server/controllers/login_lockout.go:138-143 | the address loses its counter and its window together |
| RateLimit.BoundHolds | server/controllers/login_lockout.go:114-135 | the invariant behind the bound: requests allowed in the current window are limited by its counter |
| RateLimit.AtMostTwiceTheMaximum | server/controllers/login_lockout.go:114-135 | with maximum m at most 2m - 1 requests of one address are allowed in any sixty seconds |
| RateLimit.BoundAttained | server/controllers/login_lockout.go:114-135 | for every m some history reaches 2m - 1, so the bound is exact |
| RateLimit.LoginLockout.CheckLoginLockout | server/controllers/login_lockout.go:70-84 | locked exactly when enough failures are recorded and the last has not lapsed; a lapsed record is dropped |
| RateLimit.LoginLockout.RecordLoginFailure | server/controllers/login_lockout.go:87-98 | the address's count grows by one as of now |
| RateLimit.LoginLockout.CleanExpiredAttempts | server/controllers/login_lockout.go:101-111 | exactly the lapsed records go |
| RateLimit.LoginLeaves | server/controllers/auth.go:43-92 | what a login leaves: a locked record as it was, one more failure for a wrong password, no record for a right one, and nothing changed for other addresses |
| RateLimit.CleaningInvisible | server/main.go:279-287 | cleaning with a threshold no shorter than the lockout never changes a verdict, in any history of logins |
| RateLimit.CleaningUnlocksEarly | server/main.go:279-287 | with any longer lockout, for every maximum, a locked address is released early in some history |
| RateLimit.CleaningInvisibleIff | server/main.go:279-287 | for every maximum, cleaning changes no verdict in any history exactly when it waits out the lockout |
| SelfUpdate.Updater.SelfUpdate | agent/common/agent.go:259-288 | success leaves the new binary current, an error whose rollback succeeds the old one; a complete binary is at the current or backup path at every step boundary exactly when the new file cannot hit the backup |
| SelfUpdate.WriteRecoverable | agent/common/agent.go:269-277 | with the old binary moved aside, writing is crash-safe exactly when it does not hit the backup |
| PluginConfig.IsSecretField | server/controllers/plugins.go:70-77 | the first field with the key decides, stated by its position |
| PluginConfig.EncryptPluginConfig | server/controllers/plugins.go:80-99 | exactly the non-empty secrets are encrypted, or the whole call fails |
| PluginConfig.DecryptPluginConfig | server/controllers/plugins.go:102-121 | exactly the non-empty secrets are decrypted, or the whole call fails, as it does for text that is not JSON |
| PluginConfig.MaskSecretConfig | server/controllers/plugins.go:124-134 | exactly the non-empty secrets are masked |
| PluginConfig.MergeConfig | server/controllers/plugins.go:300-312 | decrypt, overlay the submitted values that are not masks over secrets, encrypt |
| PluginConfig.MergeFailsIff | server/controllers/plugins.go:80-121 | a merge fails exactly when the stored text does not parse, a stored secret does not decrypt, or a secret to be written does not encrypt |
| PluginConfig.EncryptThenDecrypt | server/controllers/plugins.go:80-121 | whatever is stored reads back unchanged, under any nonces |
| PluginConfig.MaskedEditIsNoOp | server/controllers/plugins.go:124-151 | submitting the view as shown changes no value |
| PluginConfig.MergeChangesOnlyTheEdit | server/controllers/plugins.go:300-312 | a merge changes exactly the submitted keys that are not masks over secrets |
| PluginConfig.MergeIsIdempotent | server/controllers/plugins.go:300-312 | sending an edit again changes no value |
| PluginConfig.ViewsAgreeIff | server/controllers/plugins.go:124-151 | two views look alike exactly when their settings differ in non-empty secrets only: a view tells nothing else about a secret |
| PluginConfig.MaskIsNeverStored | server/controllers/plugins.go:305-310 | an edit never makes the mask the value of a secret |
| Csv.ReadLine | frontend/src/utils/format.js:26-27 | a reader of RFC 4180, section 2, takes one printed line as one record |
| Csv.DataLinesReadBack | frontend/src/utils/format.js:26-28 | the data lines read back as exactly the values of the rows column by column, "" where one is missing, including quotes, commas and line breaks |
| Csv.SpecialIsLost | frontend/src/utils/format.js:25 | a title with a quote, comma or line break never reads back as itself |
| Csv.ExportReadsBackIff | frontend/src/utils/format.js:24-28 | the whole file reads back exactly when no title holds one |
| CommandFilter.NormalizeCommand | server/services/mcp_tools.go:165-191 | the two byte loops compute the normal form |
| CommandFilter.NormalFormFixedIff | server/services/mcp_tools.go:164-191 | the normal form is printable, lower-case and without adjacent spaces, and exactly such commands are left alone, so normalising is idempotent |
| CommandFilter.SameFormIff | server/services/mcp_tools.go:164-191 | two commands share a normal form exactly when changes of case, unprintable characters and spaces beside a space lead from one to the other |
| CommandFilter.CheckDangerousCommand | server/services/mcp_tools.go:122-162 | the verdict, branch by branch, with the five cache types that pass; for a non-empty command it depends on the normal form alone |
| CommandFilter.JudgedIff | server/services/mcp_tools.go:141-161 | each verdict exactly, by what the command is made of: the listed fragments first, then a bar, white space and a shell, then a separator, white space and a destroyer, each word ended |
| CommandFilter.DisguiseKeepsVerdict | server/services/mcp_tools.go:139-161 | no such disguise changes the verdict |
| CommandFilter.BannedAnywhere | server/services/mcp_tools.go:141-150 | text that normalises to a banned fragment is refused inside any longer command |
| CommandFilter.SeparatorCaughtIff | server/services/mcp_tools.go:139-150 | a fragment of two words anywhere in a command is refused when the white space between them holds a space; without one the words fuse, and amid text that completes no pattern the command passes |
| CommandFilter.OpenerMatchesIff | server/services/mcp_tools.go:152-160 | for any opener (a bar or a separator), listed word, white space between them and text around them, the pattern matches there exactly when what is kept after the word ends it |
| CommandFilter.EndedWordRefused | server/services/mcp_tools.go:152-160 | where the word is ended the command is refused, whatever else it holds |
| CommandFilter.PipeVerdictIff | server/services/mcp_tools.go:152-156 | amid text without other marks a bar and a shell are refused exactly when what is kept after the shell's name ends it |
| CommandFilter.SequenceVerdictIff | server/services/mcp_tools.go:157-160 | the same for every separator and destroyer |
| CommandFilter.FusedWordsPass | server/services/mcp_tools.go:152-160 | with a tab and another word after the name both pass |

## Left out

- HTTP routing, JSON, JWT, bcrypt, SQL text and GORM: tables are maps and sequences, and a handler call or a locked section is one atomic step. A cancel between the read and the update of `next` is therefore not modelled; at that grain a canceled command can still run.
- Cryptography and base64 in `server/services/credential.go`: the credential service is a parameter whose decryption undoes its encryption.
- Collectors, agent metric collection, downloads and archive extraction: their outcome is a parameter of the step that uses it. Clocks, uuids and randomness are parameters too.
- Floating point: averages and thresholds are reals. uint64 sums wrap as in the source; ids, counters and durations are unbounded, so the wrap of `nextApprovalID` or a rate counter is not modelled.
- Pointer aliasing: nodes, approvals and tasks are values in a map field. An executing goroutine's pointer to its approval is modelled as writes to the entry under its id, which no other approval ever gets; data races within one write are not.
- FailoverClient.ClusterClient.Request: sequential requests only; two requests in flight share the index and counters in the source.
- Cluster.SortStrings: an insertion sort stands for `sort.Strings`.
- Retention.Store.ReadOldSamples: the order among equal timestamps is left open, as in SQL; the delete statement is modelled as removing exactly what was read, so a sample inserted late between the two is not.
- AlertEngine.AlertsSpaced: evaluations happen one at a time under one clock; `%.1f` is an arbitrary number-like text and LIKE a case-sensitive substring match. Silence start times and labels are not modelled, because evaluation ignores both.
- Escalation.EscalatedAtMostOnce: one checker runs at a time. Every node of a cluster runs its own (`server/main.go:86`), which is not modelled.
- AgentRouter.HealthyNodeStarves: the other nodes answer every request; the failures of a second dead node would be charged in the same way, to the node after it.
- TaskServer.Server.CreateTasks: an id that a failed insert may use up is not modelled; timeouts and creators are not part of a task.
- ChannelHealth.DisabledIffInARow: whether the database layer's `Updates` writes a map's values back into the loaded struct is not part of this model; both cases are stated, and they disable at five or at four failures.
- SelfUpdate.Updater.SelfUpdate: starts after the archive has been read, and needs renames to be atomic.
- PluginConfig.DecryptPluginConfig: the stored text is modelled as its parsed map or as not parseable; the JSON grammar itself is not modelled.
- CommandFilter.CheckDangerousCommand: regular expressions are restated as predicates over positions, and proved equal to what they say of the text's parts (`JudgedIff`). `validateToolParams`, `validServiceName` and `validLogPath` are easy predicates.
- `PublishInfo` and `PublishLeader`, `parseToolCalls`, React pages, deploy scripts, plugin and channel registries, offline detection and cron jobs.
