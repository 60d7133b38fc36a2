# BiMarz: a verified model of the connection lifecycle

BiMarz drives xray-core, an engine reached over gRPC, a firewall kill switch and a
failover loop. This project models the parts whose faults interact and proves what they
keep under every fault pattern, every schedule of watcher threads and every network.

How faults are modelled: every call that leaves the orchestrator is a numbered attempt,
and attempt `n` fails exactly when `faults(n)`. A statement for every function `faults` is
a statement for every fault pattern. A failed call has no effect. Threads are modelled by
their atomic steps: a region under a lock, or one event or thread operation outside it;
`Interfere` stands wherever the interpreter may run watcher threads.

| file | models |
|---|---|
| `Firewall.dfy`, `RuleTexts.dfy` | the kill-switch rules: command texts, chains, apply, remove, verdicts |
| `WatcherProtocol.dfy`, `KillSwitch.dfy`, `Deactivation.dfy` | `KillSwitchManager`: one controller, any number of watcher threads, the filter table; schedules in which `deactivate` goes wrong |
| `Health.dfy`, `Failover.dfy` | parallel health checks, choice of an alternative, failure counter and history |
| `TunnelSwitch.dfy`, `FailoverRun.dfy` | the exchange of the outbound with recovery; whole runs of the failover loop |
| `Services.dfy`, `CleanupPlan.dfy`, `Connection.dfy` | process, directory and client ownership; start, rollback, cleanup, `__aexit__` |
| `GuiWorker.dfy` | the failover rounds of the GUI |
| `Identifiers.dfy`, `ModuleTree.dfy` | the module-tree compiler of the build script |
| `ProfileStore.dfy` | the encrypted store: what a power loss can find, passwords, salt |
| `QueryParser.dfy`, `Utf8.dfy` | the query splitter and decoder of the Android link parser |
| `Text.dfy` | strings: split, join, order, decimal numerals |

`dafny verify dfyconfig.toml` checks everything.

## What the proofs found

Where the code and its documentation, or the expected property, disagree, the model follows
the code.

- Agreement of "who is active" with "what is installed" on the command line is guaranteed
  exactly for profile tables that hold the initial profile itself under its id and have no
  profile with an empty id (`AgreementIff`). With an empty id the switch is made and the
  record then refuses it (`orchestrator/bimarz/connection.py:281`,
  `orchestrator/bimarz/failover.py:174`). The GUI restores the previous profile in that case
  and agrees exactly when no id is empty (`WorkerAgreementIff`).
- The textual rewrite ` -I ` to ` -D ` gives the matching delete exactly when no
  space-separated piece of the interface is `-I` (`RewriteIsMatchingDelete`).
- `deactivate` is not repeatable. When the rules are removed but the watcher outlives the
  join, the record stays kernel-active (`StuckStateArises`). Unless the table held older copies
  of both rules, no number of further calls completes, although they delete older copies of
  the INPUT rule (`RetryDeactivate`); if it held both, the next call removes those copies,
  which are not the manager's (`RetryTakesOlderCopy`).
- `deactivate` writes back the snapshot it began with, so a trigger that lands during the
  call is lost (`LateTriggerIsLost`).
- A partly applied ruleset is left behind when the manager falls back to software mode
  (`applied` in `KillSwitchManager.Activate`).
- A write of the profile store that fails in the directory sync has already shown its file.
  After two such writes a power loss can bring back the first, which is neither the old nor
  the new file (`EarlierFileCanReturn`); with a synced directory before the write it finds
  the old file or the new (`CrashFindsWholeFile`).
- The comment on `safe_ident` says that a leading digit gets a `_` prefix; the code replaces
  the digit. The empty segment and a single character that is not a letter become `_`,
  which is not a legal module name (`SafeIdentIsLegal`).
- The Android parser decodes `spx` twice, so a value survives exactly when it has no `+` and
  no `%` (`SpiderXSurvivesIff`, with two values in `SpiderXExamples`).
- `cleanup()` leaves the ownership flags as they are; only the rollback clears them
  (`ConnectionService.Cleanup`).

## Model

| member | source | states |
|---|---|---|
| Firewall.RuleExecutor.Execute | engine-core/src/killswitch.rs:28-44 | a failing command changes nothing; a succeeding one has the effect iptables gives its arguments, and an empty one has none |
| Firewall.ApplyRuleset | engine-core/src/killswitch.rs:91-99 | an error leaves exactly a strict prefix of the ruleset applied, success all of it; with a sound executor it succeeds whenever the commands can run |
| Firewall.RemovalCommands | engine-core/src/killswitch.rs:107-108 | the removal issues one rewritten command per rule, last rule first |
| Firewall.RemoveRuleset | engine-core/src/killswitch.rs:103-112 | an error means that only a strict part of the removal commands ran, success that all did; a sound executor stops only at a command that cannot run |
| Firewall.ApplyKillSwitchRules | engine-core/src/lib.rs:191-196 | without a uid nothing is run; otherwise the first `done` rules are in force, and success is all of them |
| Firewall.RemoveKillSwitchRules | engine-core/src/lib.rs:201-206 | without a uid nothing is run; otherwise exactly the first `done` removal commands took effect |
| Firewall.InsertThenDelete | engine-core/src/killswitch.rs:28-44 | inserting a rule and running its rewritten command restores the table, even if an equal rule was there before |
| Firewall.RemovalUndoes | engine-core/src/killswitch.rs:91-112 | after removing the last j of k applied rules exactly the first k - j are in force |
| Firewall.ApplyThenRemoveRestores | engine-core/src/killswitch.rs:91-112 | for any table and any undoable ruleset, apply then remove restores the table exactly, duplicates included |
| RuleTexts.RuleTokens | engine-core/src/killswitch.rs:30-37 | the arguments iptables receives from a rule text, whatever white space the interface holds |
| RuleTexts.RewriteIsMatchingDelete | engine-core/src/killswitch.rs:74-81 | the rewritten text is the text of the delete of the same rule iff no space-separated piece of the interface is `-I` |
| RuleTexts.KillSwitchRulesUndoable | engine-core/src/killswitch.rs:64-112 | both rules can be undone, for every uid and every interface without a `-I` piece |
| RuleTexts.RemovalLeavesPrefix | engine-core/src/killswitch.rs:103-112 | taking n rules of a full ruleset back leaves the other 2 - n in force |
| RuleTexts.FullRulesetRemovable | engine-core/src/killswitch.rs:103-112 | a full ruleset can always be taken back |
| RuleTexts.RemovableIffInstalled | engine-core/src/killswitch.rs:103-112 | a removal can begin iff the INPUT chain holds a copy of the INPUT rule, for every interface without a `-I` piece |
| RuleTexts.FullyRemovableIffInstalled | engine-core/src/killswitch.rs:103-112 | and it can be completed iff both chains hold a copy of their rule |
| RuleTexts.DeleteRule | engine-core/src/killswitch.rs:107-109 | each rewritten command deletes the first copy of its rule, and fails iff there is none |
| RuleTexts.StillNotRemovable | engine-core/src/killswitch.rs:103-112 | for every interface: a removal that cannot be completed cannot be completed after its first command either, and only the INPUT chain has changed |
| RuleTexts.KillSwitchTable | engine-core/src/killswitch.rs:64-99 | the whole filter table after the ruleset |
| RuleTexts.KillSwitchVerdict | engine-core/src/killswitch.rs:64-99 | for any chains and any packet the verdict becomes DROP when the packet uses the interface and is not owned by the uid, and is otherwise what it was; no other chain changes |
| RuleTexts.DecimalInjective | engine-core/src/killswitch.rs:74-81 | different uids have different texts, so the owner match exempts one uid only |
| RuleTexts.DecimalReads | engine-core/src/killswitch.rs:74-81 | the uid stands in the text as its decimal numeral, without a leading zero |
| WatcherProtocol.WatcherStepKeepsInv | orchestrator/bimarz/killswitch_manager.py:239-281 | every atomic watcher step keeps: only the newest thread is live and `_watcher_thread` names it; RUNNING means it has not run its epilogue; PROCESS_DIED is active, triggered and explained |
| WatcherProtocol.WatcherStepRely | orchestrator/bimarz/killswitch_manager.py:184-281 | a watcher step never changes active, interface, uid or kernel_capable, and a step of a finished thread changes nothing visible |
| WatcherProtocol.ScheduleKeepsInv | orchestrator/bimarz/killswitch_manager.py:239-281 | the same for every interleaving of any number of steps of any watchers |
| WatcherProtocol.AtMostOnePolling | orchestrator/bimarz/killswitch_manager.py:217-290 | in every interleaving at most one watcher is in its polling loop: the newest, while `_watcher_thread` names it |
| WatcherProtocol.FinishingWatcherLeavesSuccessor | orchestrator/bimarz/killswitch_manager.py:264-281 | no step of a superseded watcher is visible to its successor or to the controller |
| WatcherProtocol.TriggerLatched | orchestrator/bimarz/killswitch_manager.py:184-203 | once PROCESS_DIED is recorded no interleaving of watchers changes the record |
| WatcherProtocol.WatchersKeepProtection | orchestrator/bimarz/killswitch_manager.py:184-281 | no interleaving changes what is protected, and none triggers once the stop event is set |
| WatcherProtocol.DeadProcessTriggers | orchestrator/bimarz/killswitch_manager.py:184-262 | a poll that fails or finds the process gone ends in PROCESS_DIED with its reason and the stop event set, unless the kill switch is inactive |
| WatcherProtocol.AliveProcessChangesNothing | orchestrator/bimarz/killswitch_manager.py:239-263 | while every poll finds the process alive and nobody stops it, no interleaving changes the record or ends the loop |
| WatcherProtocol.FailingPollsTrigger | orchestrator/bimarz/killswitch_manager.py:184-263 | from anywhere in its loop, a watcher whose polls all fail or find the process gone records PROCESS_DIED with the reason of one of them, under every schedule that gives it its steps |
| WatcherProtocol.DeathIsDetected | orchestrator/bimarz/killswitch_manager.py:184-263 | a process that dies after any number of polls found it alive is detected, in every interleaving, within five steps of the watcher, with one of the two reasons of the code |
| WatcherProtocol.StoppedWatcherFinishes | orchestrator/bimarz/killswitch_manager.py:239-281 | after the stop event a watcher that gets its steps finishes, writes RUNNING back and releases `_watcher_thread` |
| KillSwitch.KillSwitchManager.Interfere | orchestrator/bimarz/killswitch_manager.py:239-281 | whatever the watchers do between two controller steps keeps the invariants |
| KillSwitch.KillSwitchManager.Activate | orchestrator/bimarz/killswitch_manager.py:127-182 | the new record, when it refuses, when kernel mode is chosen, and how many rules are then in force on the old table, for the recorded interface and uid: both in kernel mode, at most one leaked rule in the software fallback; threads are left alone |
| KillSwitch.KillSwitchManager.StartProcessWatcher | orchestrator/bimarz/killswitch_manager.py:205-290 | after a start exactly one watcher is live, the new one; it never starts after a trigger or while the old thread lives |
| KillSwitch.KillSwitchManager.StopProcessWatcher | orchestrator/bimarz/killswitch_manager.py:292-341 | True means settled: not RUNNING and no thread left that could change the record; False means that the thread outlived the join |
| KillSwitch.KillSwitchManager.Deactivate | orchestrator/bimarz/killswitch_manager.py:343-376 | completion leaves the snapshot inactive, its trigger kept, no live watcher and the table without the rules; a prefix of the removal commands ran; with dead threads and a sound executor it completes iff both rules of a kernel-active manager can be removed (in the chains: `RuleTexts.FullyRemovableIffInstalled`), and removes the INPUT rule whenever it is there |
| KillSwitch.KillSwitchManager.RemoveRules | orchestrator/bimarz/killswitch_manager.py:350-360 | exactly how many removal commands took effect and what is left: a complete ruleset gives way to the table underneath, rule by rule; a sound executor removes both rules iff both are there, and the INPUT rule whenever it is |
| KillSwitch.RunController | orchestrator/bimarz/killswitch_manager.py:127-376 | in every run of one controller over any executor: a recorded trigger is unchanged until a deactivate completes; if no call left a ruleset half applied or half removed, a manager over a clean table still stands on that table or on it plus one complete ruleset; with a sound executor no call does |
| KillSwitch.RunFromStart | orchestrator/bimarz/killswitch_manager.py:33-376 | from a new manager over a clean table: the table ends as it was, or with exactly one copy of the two rules for the recorded interface and uid, and that only while active and kernel-capable, for every run of all-or-nothing calls and so for a sound executor |
| KillSwitch.PristineTable | orchestrator/bimarz/killswitch_manager.py:127-376 | what that invariant says of the table alone |
| KillSwitch.CleanTable | engine-core/src/killswitch.rs:64-112 | over both chains without a kill-switch rule the ruleset can be applied and nothing can be removed |
| KillSwitch.RetryDeactivate | orchestrator/bimarz/killswitch_manager.py:350-364 | once one of the two rules has no copy left and the record still says kernel-active, no number of calls completes; at most older copies of the INPUT rule are deleted |
| Deactivation.StuckStateArises | orchestrator/bimarz/killswitch_manager.py:343-364 | that state arises over every table: the removal succeeds, the poll outlives the join, the record stays active; a retry can begin iff the table held an older copy of the INPUT rule, and complete iff it held both |
| Deactivation.FinishIsADeactivate | orchestrator/bimarz/killswitch_manager.py:343-376 | the schedules used here meet what the method promises of record and threads, for any watcher steps before and during the join |
| Deactivation.RetryTakesOlderCopy | orchestrator/bimarz/killswitch_manager.py:343-376 | if the table held both rules before, the retry removes that older copy, completes, and leaves another table than before activation |
| Deactivation.LateTriggerIsLost | orchestrator/bimarz/killswitch_manager.py:343-374 | a trigger recorded after the snapshot is gone when the call completes |
| Health.CheckTcpReachable | engine-core/src/healthcheck.rs:33-62 | reachable, with the time the connection took as the latency, exactly when a connection came about; otherwise the message of the refusal or of the timeout |
| Health.CheckMany | engine-core/src/healthcheck.rs:71-96 | whatever order the tasks finish in, the answers are those of the tasks that complete, as a multiset |
| Health.AnswersMembers | engine-core/src/healthcheck.rs:71-96 | an answer is present iff some target's task completed with it |
| Health.AllAnswer | engine-core/src/healthcheck.rs:71-96 | when no task panics every target is answered exactly once |
| Health.CheckAllProfiles | orchestrator/bimarz/failover.py:44-82 | for distinct ids the dictionary holds exactly each completed answer under its own id |
| Health.CompletionOrderIrrelevant | orchestrator/bimarz/failover.py:44-82 | two batches over the same targets and network give the same dictionary |
| Failover.LeastIsMinimal | orchestrator/bimarz/failover.py:159-163 | `min` over (latency, id) is below every candidate |
| Failover.PickIsBest | orchestrator/bimarz/failover.py:142-163 | the pick is the least reachable non-active result, and None iff there is none |
| Failover.BestIsUnique | orchestrator/bimarz/failover.py:142-163 | there is only one such pick, so the dictionary's order does not matter |
| Failover.BestIsKnown | orchestrator/bimarz/connection.py:239 | the pick is a key of the table and not the active id, so the lookup never fails |
| Failover.PickBest | orchestrator/bimarz/failover.py:142-163 | the same for the loop over the dictionary in any order |
| Failover.FailoverManager.Create | orchestrator/bimarz/failover.py:91-105 | raises iff the id is empty or the threshold below 1 |
| Failover.FailoverManager.RecordActiveProfileResult | orchestrator/bimarz/failover.py:119-133 | the counter is the length of the unreachable run at the end of the active profile's answers; other profiles are ignored |
| Failover.FailoverManager.TriggerFailover | orchestrator/bimarz/failover.py:165-191 | raises iff the id is empty or already active, and then changes nothing; otherwise the history is extended by one link |
| Failover.ChainLinks | orchestrator/bimarz/failover.py:165-191 | each event starts where the previous one ended, the first at the initial id, and none goes to itself |
| Failover.SuffixMeans | orchestrator/bimarz/failover.py:130-140 | the counter counts consecutive failures: so many in a row, and a success before them |
| TunnelSwitch.SwitchAgreesUnless | orchestrator/bimarz/gui/connection_worker.py:392-466 | a switch keeps the agreement of flag, outbound and profile except in one fault pattern, stated exactly |
| TunnelSwitch.AbsentOutboundHeals | orchestrator/bimarz/gui/connection_worker.py:392-466 | from an absent outbound, a switch to an accepted profile leaves one iff its last call succeeds; a refused one is lost again only if it could be removed |
| TunnelSwitch.LastCallDecides | orchestrator/bimarz/gui/connection_worker.py:392-466 | a switch whose last call succeeds ends with an owned outbound whatever failed before, and one is lost only if that call fails |
| TunnelSwitch.WhatIsLeft | orchestrator/bimarz/gui/connection_worker.py:392-466 | a switch succeeds iff both calls do and the record takes the id; when its last call fails too, what is left follows from the first call that failed |
| FailoverRun.RunRound | orchestrator/bimarz/connection.py:217-307 | an exception of a round is an attempt of that round that failed, or the refusal of an empty id that the table holds, and nothing else; the active id stays in the table |
| FailoverRun.RunLoop | orchestrator/bimarz/connection.py:204-307 | the same for a whole run of the loop |
| FailoverRun.RoundKeeps | orchestrator/bimarz/connection.py:217-307 | a round keeps the loop-head invariant or ends the loop in the exit condition |
| FailoverRun.LoopKeeps | orchestrator/bimarz/connection.py:204-307 | in every run with any RPC failures: while the loop goes on, each head has the outbound owned and the expected profile installed, the counter below the threshold, and threshold times switches plus counter at most the rounds; at the exit that profile is installed if owned, nothing if not |
| FailoverRun.LoopAgreement | orchestrator/bimarz/connection.py:204-307 | active id and installed profile agree at the exit of every run, for tables that meet the condition |
| FailoverRun.AgreementIff | orchestrator/bimarz/connection.py:204-307 | that condition is exact: otherwise some run disagrees |
| FailoverRun.LoopHistory | orchestrator/bimarz/connection.py:281-294 | the reported switches form a chain from the initial to the active id with no self-switch, as many as were counted |
| FailoverRun.ThirdRound | orchestrator/bimarz/connection.py:217-239 | two silent rounds change nothing but the count, the third goes on to a switch |
| FailoverRun.ThirdFailureSwitches | orchestrator/bimarz/connection.py:217-292 | the third failure in a row switches to the best reachable alternative, if the calls succeed |
| FailoverRun.BestIsFastest | orchestrator/bimarz/failover.py:142-163 | over the network: the pick is the alternative that connects fastest, the lesser id breaking a tie, and there is none iff no alternative connects |
| FailoverRun.CountIsMisses | orchestrator/bimarz/failover.py:119-140 | while no switch happens the counter is the number of rounds in a row in which the active profile did not connect, skipping rounds without an answer, and a round in which it connects starts it again |
| FailoverRun.NextRoundDecides | orchestrator/bimarz/connection.py:217-307 | what the next round of any run does, over the network and the faults alone: a failed health check leaves as its exception, fewer than three misses in a row change nothing, at three the fastest alternative is installed and reported, without an alternative or after a failed call an error is shown and the loop ends, and so it does on a stop request or the death of the watcher |
| FailoverRun.LoopSplit | orchestrator/bimarz/connection.py:204-307 | a run continues from where it is, so the same holds again after every switch |
| Services.ProcessService.Start | orchestrator/bimarz/services/process.py:41-73 | the acquisitions in order up to the first that fails, the directory given back on a failure, and the exception of the last attempt that failed leaves |
| Services.ProcessService.Stop | orchestrator/bimarz/services/process.py:75-87 | both references are empty afterwards, each held resource gets one release attempt, and it raises iff one of them failed |
| Services.ProcessService.CleanupRuntime | orchestrator/bimarz/services/process.py:89-98 | the directory is cleaned at most once, and given up even when that fails |
| Services.EngineService.Connect | orchestrator/bimarz/services/engine.py:37-57 | one attempt unless a client is held; a failure leaves none |
| Services.EngineService.AddOutbound | orchestrator/bimarz/services/engine.py:59-70 | raises without a client before any call; otherwise exactly one call, installed iff it succeeds |
| Services.EngineService.RemoveOutbound | orchestrator/bimarz/services/engine.py:72-94 | silent without a client; otherwise exactly one call, and it raises iff the call failed |
| Services.EngineService.Close | orchestrator/bimarz/services/engine.py:96-117 | the client is given up even when its close raises, and closed at most once |
| CleanupPlan.ReportIsExact | orchestrator/bimarz/connection.py:334-420 | a release step is reported iff one of its own attempts raised, and never twice |
| CleanupPlan.ReportsAnything | orchestrator/bimarz/connection.py:401-420 | something is reported iff some attempt failed |
| CleanupPlan.PlanAttempts | orchestrator/bimarz/connection.py:334-399 | one cleanup stops the watcher and releases everything it is told of, each once, and attempts nothing else |
| CleanupPlan.ReleasePlanOrdered | orchestrator/bimarz/connection.py:353-399 | outbound removal before client close before process stop before kill-switch disable, also when rollback and cleanup both run |
| Connection.ConnectionService.Acquire | orchestrator/bimarz/connection.py:155-176 | every acquisition is attempted once, in order, until one fails, and the exception of its last failing attempt leaves; exactly the flags of those that succeeded are set, and what was attempted, what is held and what was shown follow from which one failed |
| Connection.ConnectionService.CleanupResources | orchestrator/bimarz/connection.py:334-420 | what is attempted depends only on what is owned, never on what failed; the messages are those of the steps that raised; no message implies all flags clear |
| Connection.ConnectionService.Cleanup | orchestrator/bimarz/connection.py:422-492 | a second call does nothing; the first attempts every release, empties the services and leaves the other flags alone |
| Connection.ConnectionService.SwitchOutbound | orchestrator/bimarz/connection.py:241-279 | the code computes the modelled switch, recovery included |
| Connection.ConnectionService.FailoverRound | orchestrator/bimarz/connection.py:217-307 | one round of the code is one round of the modelled run, and so decides what `FailoverRun.NextRoundDecides` says |
| Connection.ConnectionService.FailoverLoop | orchestrator/bimarz/connection.py:204-307 | the loop is the modelled run for every fault pattern, and the ownership flag tells whether something is installed |
| Connection.ConnectionService.WatchLoop | orchestrator/bimarz/connection.py:309-327 | at most the death of the kill-switch watcher is reported, and it is iff no stop request comes before it |
| Connection.ConnectionService.Rollback | orchestrator/bimarz/connection.py:198-202 | all services are empty afterwards, the attempts follow from what was owned, come in order and are reported when they fail; no completed cleanup is shown |
| Connection.ConnectionService.Start | orchestrator/bimarz/connection.py:131-196 | which acquisition failed and what was attempted up to it; the exception that leaves is the one its body ended with, a failed acquisition or what the modelled run of the loop raises, never one of the rollback; on any exception exactly the rollback of what the body left follows, in order; all that is shown |
| Connection.Session | orchestrator/bimarz/connection.py:80-196 | for every fault pattern of one start followed by `__aexit__`: if one of the first six attempts fails, eight with the kill switch, the exception of the last failing attempt of that acquisition leaves; otherwise what the modelled run of the loop raises, and without failover nothing; all references end empty, each process is stopped once, each directory cleaned once, each client closed at most once, releases in order, and no kill-switch disable before a stop of this session's process was attempted; what was attempted and shown from beginning to end |
| Connection.ProfileMap | orchestrator/bimarz/connection.py:211-214 | every entry stands under its own id, and the initial id is present |
| Connection.TableOf | orchestrator/bimarz/connection.py:211-214 | of the given profiles the table holds the last with its id, and the initial one only where its id is not among theirs |
| GuiWorker.RunAgrees | orchestrator/bimarz/gui/connection_worker.py:312-473 | at every round boundary of every run, failover record, profile, flag and outbound agree, whatever fails |
| GuiWorker.WorkerAgreementIff | orchestrator/bimarz/gui/connection_worker.py:312-473 | this holds for all runs iff no profile has an empty id |
| GuiWorker.NextFailureHeals | orchestrator/bimarz/gui/connection_worker.py:338-473 | a round that left the outbound absent is healed by a later one whose calls succeed |
| GuiWorker.CheckDecides | orchestrator/bimarz/gui/connection_worker.py:338-473 | what any check does, over the network and the faults alone: a failed health check is raised, a connection starts the count again, at three misses in a row the fastest alternative is installed with its event, and a switch that fails keeps the count, so the next miss tries again |
| GuiWorker.WorkerAppend | orchestrator/bimarz/gui/connection_worker.py:312-336 | a run is its checks one after the other; the death of the kill-switch watcher ends it and is all that it raises |
| GuiWorker.ConnectionWorker.SwitchProfile | orchestrator/bimarz/gui/connection_worker.py:386-473 | the two try blocks compute the modelled switch; record and profile change together |
| GuiWorker.ConnectionWorker.AsyncFailoverCheck | orchestrator/bimarz/gui/connection_worker.py:338-473 | one check of the code is one check of the modelled run; without a client nothing happens |
| GuiWorker.ConnectionWorker.FailoverLoop | orchestrator/bimarz/gui/connection_worker.py:312-336 | the loop is the modelled run, so it keeps the agreement |
| Identifiers.MakeSafeIdent | engine-core/build.rs:125-165 | the character loop computes the sanitised name |
| Identifiers.SafeIdentIsLegal | engine-core/build.rs:111-165 | the result is a legal module name iff the segment is not empty and not a single non-letter |
| Identifiers.SafeIdentDistinct | engine-core/build.rs:111-165 | two segments that are identifiers collide iff equal, or one is `self`, `super`, `crate` or `Self` and the other the same with `_` |
| ModuleTree.LookupInsert | engine-core/build.rs:98-109 | insertion sets exactly one path and leaves every other lookup as it was, prefixes included |
| ModuleTree.InsertKeepsCanonical | engine-core/build.rs:98-109 | the map stays sorted and every node leads to a file |
| ModuleTree.CanonicalIsUnique | engine-core/build.rs:92-109 | two such trees with the same lookups are the same tree |
| ModuleTree.ReplayEmitted | engine-core/build.rs:167-182 | replaying the emitted lines with a module stack never underflows and records the files under their sanitised paths |
| ModuleTree.FilesAreLookups | engine-core/build.rs:167-182 | each file is emitted exactly once, under its own path |
| ModuleTree.BuildHolds | engine-core/build.rs:190-205 | the tree holds a file at a path iff some generated file has that dotted name |
| ModuleTree.ReadingOrderIrrelevant | engine-core/build.rs:184-211 | the emitted code does not depend on the order in which the directory is read |
| ModuleTree.EveryFileOnce | engine-core/build.rs:167-211 | the replay ends with no module open and records every generated file exactly once under its sanitised dotted path |
| ModuleTree.LineReads | engine-core/build.rs:167-182 | each line is written so that a reader recognises it by its characters, and is ended once |
| ModuleTree.TextReads | engine-core/build.rs:167-182 | reading the rendered text gives back its lines |
| ModuleTree.RenderedReadsBack | engine-core/build.rs:167-211 | reading the text of a tree, line by line and with a module stack, never underflows, ends with no module open and records each file once under its sanitised path |
| ModuleTree.CountIsFiles | engine-core/build.rs:190-205 | files with different names are all in the tree, so the count is the number of files it holds |
| ModuleTree.PushTree | engine-core/build.rs:167-182 | the recursive loop appends exactly the text of the emitted lines |
| ModuleTree.GenerateModuleTree | engine-core/build.rs:190-211 | the text that is written reads back as the tree of all Rust files, every module closed and each file included once; the count is their number |
| ProfileStore.CrashFindsWholeFile | orchestrator/bimarz/profiles.py:177-222 | a power loss at any moment of a write finds the whole new file or one of the whole files shown since the directory was last synced; if it was synced before the write, the old file or the new |
| ProfileStore.CrashFindsShown | orchestrator/bimarz/profiles.py:200-210 | with synced files, what may be found is exactly the files shown since then |
| ProfileStore.EarlierFileCanReturn | orchestrator/bimarz/profiles.py:200-210 | after a replacement whose directory sync failed, a file that is neither the old nor the new one can come back |
| ProfileStore.SealedOpensIff | orchestrator/bimarz/profiles.py:106-175 | what was written under a password is read back with its salt under that password, and any other is refused as wrong |
| ProfileStore.OpensOrIsClosed | orchestrator/bimarz/profiles.py:106-149 | every content either opens, with one salt and one map, or is refused with one error, and never both |
| ProfileStore.ProfileStore.ReadEncryptedState | orchestrator/bimarz/profiles.py:106-149 | reading never changes the file; a missing file is an empty store, an envelope opens under its own key if it holds a mapping, and any other content is refused with the error that fits it, invalid data, wrong password or no mapping; a failed read is an I/O error |
| ProfileStore.ProfileStore.WriteEncryptedState | orchestrator/bimarz/profiles.py:151-222 | every moment leaves the old files, or the new one with or instead of them; which of these it ends with and whether it succeeds follows from the first operation that fails; at most one temporary file stays behind, and only if unlinking it fails |
| ProfileStore.ProfileStore.GetProfile | orchestrator/bimarz/profiles.py:229-242 | the answer for every content, password and id; a content that does not open is refused with its error |
| ProfileStore.ProfileStore.Update | orchestrator/bimarz/profiles.py:244-273 | a refused call never touches the file, a damaged or foreign one included; an accepted one leaves the old file, or the map with that one entry added or removed under the same salt with or instead of it, depending on the first operation that fails; which error is reported |
| ProfileStore.RunStore | orchestrator/bimarz/profiles.py:87-273 | over any uses, passwords and faults, from any contents on the medium: the path shows the file after the uses that took effect; everything shown since the last directory sync is the file after a prefix of them that contains every reported success; a power loss finds one of these whole; if nothing fails, exactly the accepted uses succeed |
| ProfileStore.OwnedForGood | orchestrator/bimarz/profiles.py:106-175 | in every such run a file keeps its password and salt, its contents are the map after some of the owner's uses, and no other password takes effect |
| ProfileStore.DamagedStays | orchestrator/bimarz/profiles.py:106-149 | a file that no password opens stays as it is: no use of any history takes effect |
| ProfileStore.FirstUseOwns | orchestrator/bimarz/profiles.py:106-175 | a missing file stays missing until the first use that takes effect, an addition, which fixes owner and salt |
| ProfileStore.LastUseWins | orchestrator/bimarz/profiles.py:244-273 | an id holds what the last use of it that took effect left there |
| ProfileStore.UntouchedStays | orchestrator/bimarz/profiles.py:244-273 | an id no effective use names keeps its entry |
| QueryParser.ToMapIsLastWins | android/app/src/main/kotlin/ir/bimarz/app/data/VlessLinkParser.kt:84 | the map holds for each key the value of its last pair and nothing else |
| QueryParser.QueryRoundTrip | android/app/src/main/kotlin/ir/bimarz/app/data/VlessLinkParser.kt:74-88 | parsing the `&`-joined encoded pairs gives the last-wins map, for any codec whose decoder inverts its encoder |
| QueryParser.QueryThrowsIff | android/app/src/main/kotlin/ir/bimarz/app/data/VlessLinkParser.kt:74-88 | a query is rejected iff some piece with a `=` does not decode |
| QueryParser.PieceSplits | android/app/src/main/kotlin/ir/bimarz/app/data/VlessLinkParser.kt:78-83 | a piece is split at its first `=`, so a value may hold more |
| QueryParser.BarePiecesIgnored | android/app/src/main/kotlin/ir/bimarz/app/data/VlessLinkParser.kt:78-79 | pieces without `=` have no influence, wherever they stand |
| QueryParser.SpiderXSurvivesIff | android/app/src/main/kotlin/ir/bimarz/app/data/VlessLinkParser.kt:54 | a `spx` encoded once survives iff it has no `+` and no `%`, under any encoder that URLDecoder inverts |
| QueryParser.SpiderXExamples | android/app/src/main/kotlin/ir/bimarz/app/data/VlessLinkParser.kt:54 | `/a%20b` comes back as `/a b`, and `/100%` makes the parser throw |
| QueryParser.DecodeFixedIff | android/app/src/main/kotlin/ir/bimarz/app/data/VlessLinkParser.kt:87-88 | decoding leaves a text as it is iff it has no `+` and no `%` |
| QueryParser.DecodesIff | android/app/src/main/kotlin/ir/bimarz/app/data/VlessLinkParser.kt:87-88 | a text is rejected iff some `%` is not followed by two hexadecimal digits |
| QueryParser.RunMeans | android/app/src/main/kotlin/ir/bimarz/app/data/VlessLinkParser.kt:87-88 | a run of escapes, in either case of the digits, is decoded as one text up to the next other character |
| QueryParser.PlainMeans | android/app/src/main/kotlin/ir/bimarz/app/data/VlessLinkParser.kt:87-88 | other characters stay, but `+` becomes a blank |
| QueryParser.PercentEncoderInverted | android/app/src/main/kotlin/ir/bimarz/app/data/VlessLinkParser.kt:87-88 | there is an encoder that URLDecoder inverts and that writes no `&` and no `=` |
| QueryParser.Utf8IsCharset | android/app/src/main/kotlin/ir/bimarz/app/data/VlessLinkParser.kt:87-88 | UTF-8 meets what is asked of the character encoding |
| Utf8.RoundTrip | android/app/src/main/kotlin/ir/bimarz/app/data/VlessLinkParser.kt:87-88 | decoding inverts encoding for every string |

## Left out

- Real iptables, sockets, gRPC and subprocesses: attempts that may fail. Whether iptables accepts a rule (an owner match in INPUT, an interface with blanks) is outside the model; `Exec` accepts any matches.
- The kernel probe: its answer is a parameter of `Activate`; the rule it adds and removes in the mangle table is not modelled.
- The kill-switch service inside `ConnectionService`: calls that may raise, not linked to the `KillSwitchManager` object, whose runs are covered by `RunController`.
- Several controllers of one `KillSwitchManager`, and a watcher that stops itself: the latch needs a single controller, and `stop_process_watcher` called from the watcher only returns False.
- asyncio cancellation, `KeyboardInterrupt` and the 30-second timeout of the GUI inside a half-finished call: the flags can then be stale by design.
- Repeated `start` on one `ConnectionService`: `Session` is one start followed by `__aexit__`.
- `connect_with_retry`: one attempt that succeeds or fails.
- The liveness and kill-switch state read by the loops (`is_running`, `is_active`, `is_watcher_alive`): data of a round, assumed not to raise.
- The event handler, log messages and the wording of error messages: only which events and which messages, in which order.
- Unregistering signals is one attempt; the original suppresses the usual errors of each handler.
- Update in place of the `BTreeMap` through `&mut`: the tree is a value and insertion a function; reading the directory and writing the file cannot fail in the model.
- File names that are not valid UTF-8: the original replaces bytes, which could merge two names; the model assumes distinct names.
- PBKDF2, Fernet and JSON: a ciphertext remembers its key and decrypts under it alone; a salt is compared by its text.
- `list_profiles`, connecting and cleanup in the GUI, and latency signals: they would only add easy members.
- The closing of an already closed descriptor in the handler of a failed write: a suppressed operation.
- URLDecoder's treatment of malformed UTF-8: the results hold for every character encoding whose decoder inverts its encoder, makes no more characters than it gets bytes and keeps ASCII. Escapes take the ASCII hexadecimal digits only.
- A start of xray-core that raises after the process exists (`XrayProcess.start` can fail on its drain threads): a failed start is taken to leave no process.
- `VlessLinkParser.parse` apart from the query and `spx`: URI parsing and one-field checks.
- The GUI's profile dictionary is taken to file every profile under its own id, as its callers build it; profiles with an invalid port, which make `outbound_kwargs` raise before any call, are not modelled.
- Latencies are reals, not floating-point numbers.
- The configuration builder, DNS guard, VLESS outbound builder, mobile core, CLI and doctor: record building or thin delegation.
