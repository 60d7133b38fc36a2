/** What `deactivate` can run into (orchestrator/bimarz/killswitch_manager.py:343-376), shown
    by schedules: a watcher that outlives the join, a retry that takes an older copy of the
    rules, and a trigger that is overwritten.

    `Finish` is the part of `deactivate` after the rules are removed, for schedules in which
    watchers move only before the stop event is set and during the join.  Every such step
    meets the contract of `KillSwitchManager.Deactivate` (`FinishIsADeactivate`). */
module Deactivation {
  import opened Text
  import opened Firewall
  import opened RuleTexts
  import opened WatcherProtocol
  import opened KillSwitch

  /** `stop_process_watcher`, with `joining` as the watcher steps between the setting of the
      stop event and the end of the join. */
  function StopSteps(s: Shared, joining: Schedule): (Shared, bool) {
    var t := RunWatchers(s.(stop := true), joining);
    if s.thread.Some? && s.thread.value < |t.watchers| && !t.watchers[s.thread.value].Dead? then (t, false)
    else (t.(thread := None, state := StopRunning(t.state)), true)
  }

  /** The end of a `deactivate` that began with the record `snapshot`. */
  function Finish(snapshot: KillSwitchState, s: Shared, joining: Schedule): (Shared, bool) {
    var (t, stopped) := StopSteps(s, joining);
    if stopped then (t.(state := Deactivated(snapshot)), true) else (t, false)
  }

  /** What `KillSwitchManager.Deactivate` promises of record and threads holds of `Finish`: a
      call that began at `s`, for any watcher steps before and during the join. */
  lemma FinishIsADeactivate(s: Shared, during: Schedule, joining: Schedule)
    requires Inv(s, false)
    ensures var (t, done) := Finish(s.state, RunWatchers(s, during), joining);
            && Inv(t, false) && ThreadsDrift(s, t)
            && (done ==> NoneLive(t) && t.thread == None && t.stop
                         && t.state == KillSwitchState(s.state.kernelCapable, false, None, None, Stopped, s.state.triggered, s.state.triggerReason))
            && (!done ==> Drift(s, t))
  {
    hide RunWatchers, Inv, Rely, Drift, ThreadsDrift, NoneLive;
    var u := RunWatchers(s, during);
    var v := u.(stop := true);
    var w := RunWatchers(v, joining);
    ScheduleKeepsInv(s, during, false);
    EventKeepsInv(u, true, false);
    ScheduleKeepsInv(v, joining, false);
    RelyIsReflexive(s);
    Follow(s, s, u);
    DriftIsTransitive(s, u, v);
    Follow(s, v, w);
    DriftOfThreads(s, w);
    ThreadInRange(v);
    ThreadInRange(w);
    if ThreadGone(w) {
      ThreadGoneMeansSettled(w);
      var x := w.(thread := None);
      var (t, done) := Finish(s.state, u, joining);
      if done {
        RecordIsCoherent(s);
        SameLive(w, x);
        RecordKeepsInv(x, Deactivated(s.state));
        assert t == x.(state := Deactivated(s.state));
        assert Inv(t, false) && NoneLive(t);
        LetGo(s, w, t);
      }
    }
  }

  lemma SameLive(s: Shared, t: Shared)
    requires s.watchers == t.watchers
    ensures NoneLive(s) == NoneLive(t)
  {
  }

  lemma LetGo(s: Shared, t: Shared, u: Shared)
    requires ThreadsDrift(s, t) && u == t.(thread := None, state := u.state)
    ensures ThreadsDrift(s, u)
  {
  }

  /** After `activate` in kernel mode and `start_process_watcher`: the watcher is about to poll. */
  function Polling(interface: string, uid: nat): Shared {
    var activated := KillSwitchState(true, true, Some(interface), Some(uid), NotStarted, false, None);
    RunWatchers(Spawn(BeginStart(Shared(activated, false, None, []))), [(0, Alive)] + [])
  }

  lemma PollingState(interface: string, uid: nat)
    ensures Polling(interface, uid) ==
            Shared(KillSwitchState(true, true, Some(interface), Some(uid), Running, false, None), false, Some(0), [Poll])
    ensures Inv(Polling(interface, uid), false)
  {
    var activated := KillSwitchState(true, true, Some(interface), Some(uid), NotStarted, false, None);
    RunOne(Spawn(BeginStart(Shared(activated, false, None, []))), 0, Alive, []);
  }

  /** The rules are gone and the poll has not answered when the join times out: the call
      returns with a record that is still active and kernel-capable. */
  function Stuck(interface: string, uid: nat): Shared {
    Finish(Polling(interface, uid).state, Polling(interface, uid), []).0
  }

  /** The stuck state arises over every table, and from there a retry can begin exactly when
      the table held an older copy of the INPUT rule, and complete when it held both. */
  lemma StuckStateArises(t: Table, interface: string, uid: nat)
    requires "OUTPUT" in t && "INPUT" in t && PlainInterface(interface)
    ensures RunAll(WithKillSwitch(t, interface, uid), RemovalCommands(BuildKillSwitchRules(interface, Some(uid)).value)) == Some(t)
    ensures !Finish(Polling(interface, uid).state, Polling(interface, uid), []).1
    ensures var s := Stuck(interface, uid);
            && Inv(s, false) && s.state == Polling(interface, uid).state && s.stop && s.watchers == [Poll]
    ensures Removable(t, interface, Some(uid)) <==> ["-i", interface] + OwnerMatch(uid) in t["INPUT"]
    ensures FullyRemovable(t, interface, Some(uid)) <==>
            ["-i", interface] + OwnerMatch(uid) in t["INPUT"] && ["-o", interface] + OwnerMatch(uid) in t["OUTPUT"]
  {
    hide Removable, FullyRemovable, RunAll, RemovalCommands, WithKillSwitch;
    PollingState(interface, uid);
    EventKeepsInv(Polling(interface, uid), true, false);
    RemovalRestores(t, interface, uid);
    RemovalConditions(t, interface, uid);
  }

  /** What `Removable` and `FullyRemovable` mean in the chains, for a plain interface. */
  lemma RemovalConditions(t: Table, interface: string, uid: nat)
    requires PlainInterface(interface)
    ensures Removable(t, interface, Some(uid)) <==> "INPUT" in t && ["-i", interface] + OwnerMatch(uid) in t["INPUT"]
    ensures FullyRemovable(t, interface, Some(uid)) <==>
            && "INPUT" in t && ["-i", interface] + OwnerMatch(uid) in t["INPUT"]
            && "OUTPUT" in t && ["-o", interface] + OwnerMatch(uid) in t["OUTPUT"]
  {
    hide Removable, FullyRemovable, InputRule, OutputRule;
    PlainSplit(interface);
    PlainRules(interface, uid);
    RemovableIffInstalled(t, interface, uid);
    FullyRemovableIffInstalled(t, interface, uid);
  }

  lemma RemovalRestores(t: Table, interface: string, uid: nat)
    requires "OUTPUT" in t && "INPUT" in t && PlainInterface(interface)
    ensures RunAll(WithKillSwitch(t, interface, uid), RemovalCommands(BuildKillSwitchRules(interface, Some(uid)).value)) == Some(t)
  {
    hide RunAll, RemovalCommands, WithKillSwitch;
    PlainSplit(interface);
    KillSwitchRulesUndoable(interface, uid);
    KillSwitchTable(t, interface, uid);
    ApplyThenRemoveRestores(t, BuildKillSwitchRules(interface, Some(uid)).value);
  }

  /** Five steps take a watcher whose poll answers out of the loop and to its end. */
  function Leaving(poll: PollResult): Schedule {
    [(0, poll)] + ([(0, poll)] + ([(0, poll)] + ([(0, poll)] + ([(0, poll)] + []))))
  }

  /** When the table held both rules before, the retry removes that older copy, completes,
      and leaves a table that differs from the one before activation. */
  lemma RetryTakesOlderCopy(under: Table, interface: string, uid: nat)
    requires "OUTPUT" in under && "INPUT" in under && PlainInterface(interface)
    ensures var before := WithKillSwitch(under, interface, uid);
            && before != under
            && RunAll(before, RemovalCommands(BuildKillSwitchRules(interface, Some(uid)).value)) == Some(under)
    ensures var s := Stuck(interface, uid);
            Finish(s.state, s, Leaving(Alive)).1 && Finish(s.state, s, Leaving(Alive)).0.state == Deactivated(s.state)
  {
    RemovalRestores(under, interface, uid);
    assert |WithKillSwitch(under, interface, uid)["INPUT"]| == |under["INPUT"]| + 1;
    PollingState(interface, uid);
    LeavesFromPoll(Stuck(interface, uid));
  }

  lemma LeavesFromPoll(s: Shared)
    requires s.stop && s.thread == Some(0) && s.watchers == [Poll]
    ensures RunWatchers(s, Leaving(Alive)).watchers == [Dead]
  {
    var s1 := WatcherStep(s, 0, Alive);
    var s2 := WatcherStep(s1, 0, Alive);
    var s3 := WatcherStep(s2, 0, Alive);
    var s4 := WatcherStep(s3, 0, Alive);
    RunOne(s, 0, Alive, [(0, Alive)] + ([(0, Alive)] + ([(0, Alive)] + ([(0, Alive)] + []))));
    RunOne(s1, 0, Alive, [(0, Alive)] + ([(0, Alive)] + ([(0, Alive)] + [])));
    RunOne(s2, 0, Alive, [(0, Alive)] + ([(0, Alive)] + []));
    RunOne(s3, 0, Alive, [(0, Alive)] + []);
    RunOne(s4, 0, Alive, []);
  }

  /** The watcher steps that record a trigger. */
  function Triggering(poll: PollResult): Schedule {
    [(0, poll)] + ([(0, poll)] + ([(0, poll)] + ([(0, poll)] + [])))
  }

  /** A trigger that is recorded after `deactivate` took its snapshot is gone when the call
      completes, for any poll that does not find the process alive. */
  lemma LateTriggerIsLost(interface: string, uid: nat, poll: PollResult)
    requires !poll.Alive?
    ensures var s := Polling(interface, uid);
            var triggered := RunWatchers(s, Triggering(poll));
            var (end, done) := Finish(s.state, triggered, [(0, poll)] + ([(0, poll)] + ([(0, poll)] + [])));
            && triggered.state.watcherState.ProcessDied? && triggered.state.triggerReason == Some(Reason(poll))
            && done && !end.state.active && !end.state.triggered && end.state.triggerReason == None
  {
    PollingState(interface, uid);
    var s := Polling(interface, uid);
    DeadProcessTriggers(s, 0, poll);
    var t := RunWatchers(s, Triggering(poll)).(stop := true);
    TriggeredKeepsThread(s, poll);
    var t1 := WatcherStep(t, 0, poll);
    var t2 := WatcherStep(t1, 0, poll);
    RunOne(t, 0, poll, [(0, poll)] + ([(0, poll)] + []));
    RunOne(t1, 0, poll, [(0, poll)] + []);
    RunOne(t2, 0, poll, []);
  }

  lemma TriggeredKeepsThread(s: Shared, poll: PollResult)
    requires !poll.Alive? && s.watchers == [Poll] && !s.stop && s.state.active
    ensures RunWatchers(s, Triggering(poll)).thread == s.thread
  {
    var s1 := WatcherStep(s, 0, poll);
    var s2 := WatcherStep(s1, 0, poll);
    var s3 := WatcherStep(s2, 0, poll);
    RunOne(s, 0, poll, [(0, poll)] + ([(0, poll)] + ([(0, poll)] + [])));
    RunOne(s1, 0, poll, [(0, poll)] + ([(0, poll)] + []));
    RunOne(s2, 0, poll, [(0, poll)] + []);
    RunOne(s3, 0, poll, []);
  }
}
