/** `KillSwitchManager` (orchestrator/bimarz/killswitch_manager.py): one controller,
    any watchers, and the filter table behind them.

    The controller's methods are written as in the source; `Interfere` stands at
    every point where the interpreter may run watcher threads, so each contract holds
    for every interleaving. */
module KillSwitch {
  import opened Text
  import opened Firewall
  import opened RuleTexts
  import opened WatcherProtocol

  datatype ActivateResult = Activated | AlreadyActive | MustDeactivateFirst

  datatype StartResult = Started | AlreadyWatching | InvalidInterval | CannotRestart

  /** The record a completed `deactivate` leaves, from the snapshot it began with. */
  function Deactivated(snapshot: KillSwitchState): KillSwitchState {
    snapshot.(active := false, interface := None, xrayUid := None, watcherState := Stopped)
  }

  class KillSwitchManager {
    var state: KillSwitchState
    var stopEvent: bool
    var watcherThread: Option<nat>
    var watchers: seq<Pc>
    const firewall: RuleExecutor

    ghost var base: Table         // the table without the rules of the current activation
    ghost var held: nat           // how many of the recorded rules are in force

    constructor (firewall: RuleExecutor)
      ensures Valid() && this.firewall == firewall && base == firewall.table && held == 0
      ensures state == KillSwitchState(false, false, None, None, NotStarted, false, None)
      ensures watchers == [] && watcherThread == None && !stopEvent
    {
      this.firewall := firewall;
      state := KillSwitchState(false, false, None, None, NotStarted, false, None);
      stopEvent, watcherThread, watchers := false, None, [];
      base, held := firewall.table, 0;
    }

    ghost function View(): Shared
      reads this
    {
      Shared(state, stopEvent, watcherThread, watchers)
    }

    /** Rules are in force only while the manager is active and kernel-capable; they are
        built from the recorded interface and uid, and stand on top of `base` once. */
    ghost predicate RulesInv()
      reads this, firewall
    {
      && held <= 2
      && (held > 0 ==> state.active && state.kernelCapable)
      && (state.active && state.kernelCapable ==> state.interface.Some?)
      && InForce(base, if state.interface.Some? then state.interface.value else "", state.xrayUid, held, firewall.table)
    }

    ghost predicate Valid()
      reads this, firewall
    {
      Inv(View(), false) && RulesInv()
    }

    ghost predicate AllDead()
      reads this
    {
      forall i :: 0 <= i < |watchers| ==> watchers[i].Dead?
    }

    ghost predicate KernelActive()
      reads this
    {
      state.active && state.kernelCapable && state.interface.Some?
    }

    /** The complete ruleset is in force, under an interface whose deletes name it. */
    ghost predicate Recoverable()
      reads this
    {
      held == 2 && state.interface.Some? && "-I" !in Split(state.interface.value, ' ')
    }

    /** The threads the interpreter runs before the controller continues. */
    method Interfere(ghost starting: bool)
      requires Inv(View(), starting) && RulesInv()
      modifies `state, `stopEvent, `watcherThread, `watchers
      ensures Inv(View(), starting) && RulesInv() && Rely(old(View()), View())
    {
      hide InForce, WatcherStep, Inv, Rely, Drift, NoneLive;
      RelyIsReflexive(View());
      var steps: nat :| true;
      for n := 0 to steps
        invariant Inv(View(), starting) && RulesInv() && Rely(old(View()), View())
      {
        var i: nat :| true;
        var poll: PollResult :| true;
        if i < |watchers| {
          ghost var before := View();
          WatcherStepKeepsInv(before, i, poll, starting);
          WatcherStepRely(before, i, poll, starting);
          var next := WatcherStep(Shared(state, stopEvent, watcherThread, watchers), i, poll);
          RelyIsTransitive(old(View()), before, next);
          state, stopEvent, watcherThread, watchers := next.state, next.stop, next.thread, next.watchers;
        }
      }
    }

    /** `kernelProbe` is what `probe_kernel_capability` answers; `applied` counts the rules
        that were inserted. */
    method Activate(interface: string, xrayUid: Option<nat>, kernelProbe: bool)
      returns (r: ActivateResult, ghost applied: nat)
      requires Valid()
      modifies this, firewall
      ensures Valid() && ThreadsDrift(old(View()), View())
      ensures r == if !old(state.active) then Activated
                   else if old(state.interface) == Some(interface) && old(state.xrayUid) == xrayUid && !old(state.triggered)
                     then AlreadyActive
                   else MustDeactivateFirst
      ensures r != Activated ==> Rely(old(View()), View()) && firewall.table == old(firewall.table)
      ensures r != Activated ==> applied == 0 && base == old(base) && held == old(held)
      ensures r == Activated ==>
                && state == KillSwitchState(applied == 2, true, Some(interface), xrayUid, NotStarted, false, None)
                && old(firewall.table) == old(base) && applied <= 2
                && InForce(old(base), interface, xrayUid, applied, firewall.table)
      // Kernel mode stands on the old table; the software fallback leaves what a failed
      // apply inserted behind for good.
      ensures r == Activated ==> held == (if applied == 2 then 2 else 0)
      ensures r == Activated ==> base == if applied == 2 then old(base) else firewall.table
      // The kernel mode is chosen whenever the probe and the rules allow it.
      ensures r == Activated && (!kernelProbe || xrayUid.None?) ==> applied == 0
      ensures r == Activated && applied == 2 ==> Appliable(old(base), interface, xrayUid)
      ensures r == Activated && kernelProbe && firewall.reliable && Appliable(old(base), interface, xrayUid) ==> applied == 2
    {
      hide InForce, Appliable, Inv, Rely, Drift, ThreadsDrift;
      applied := 0;
      ghost var start := View();
      NothingHeld();
      var current := state;
      Interfere(false);
      Follow(start, start, View());
      DriftOfThreads(start, View());
      if current.active {
        if current.interface == Some(interface) && current.xrayUid == xrayUid && !current.triggered {
          return AlreadyActive, 0;
        }
        return MustDeactivateFirst, 0;
      }
      r := Activated;
      InForceNone(base, firewall.table);
      if kernelProbe {
        ghost var probed := View();
        var ok;
        ok, applied := ActivateKernel(interface, xrayUid);
        ThreadsDriftOn(start, probed, View());
        if ok { return; }
      }
      ghost var last := View();
      ActivateSoftware(interface, xrayUid);
      ThreadsDriftOn(start, last, View());
    }

    /** The kernel branch: the rules, and the record when they are all in force. */
    method ActivateKernel(interface: string, xrayUid: Option<nat>) returns (ok: bool, ghost applied: nat)
      requires Valid() && !state.active
      modifies this, firewall
      ensures Valid() && ThreadsDrift(old(View()), View()) && applied <= 2 && (ok <==> applied == 2)
      ensures InForce(old(base), interface, xrayUid, applied, firewall.table) && (xrayUid.None? ==> applied == 0)
      ensures if ok then state == KillSwitchState(true, true, Some(interface), xrayUid, NotStarted, false, None)
              else !state.active
      ensures held == (if ok then 2 else 0) && base == if ok then old(base) else firewall.table
      ensures ok ==> Appliable(old(base), interface, xrayUid)
      ensures firewall.reliable && Appliable(old(base), interface, xrayUid) ==> ok
    {
      hide InForce, Appliable, Inv, Rely, Drift, ThreadsDrift;
      ghost var start := View();
      NothingHeld();
      RelyIsReflexive(start);
      RelyOfThreads(start, start);
      ok, applied := ApplyKillSwitchRules(interface, xrayUid, firewall);
      if ok {
        RecordKeepsInv(start, KillSwitchState(true, true, Some(interface), xrayUid, NotStarted, false, None));
        held := 2;
        state := KillSwitchState(true, true, Some(interface), xrayUid, NotStarted, false, None);
        SameThreads(start, start, View());
        return;
      }
      base := firewall.table;
      InForceNone(base, firewall.table);
      Interfere(false);
      Follow(start, start, View());
      DriftOfThreads(start, View());
    }

    /** The software fallback writes the record only. */
    method ActivateSoftware(interface: string, xrayUid: Option<nat>)
      requires Valid() && !state.active
      modifies `state
      ensures Valid() && ThreadsDrift(old(View()), View())
      ensures state == KillSwitchState(false, true, Some(interface), xrayUid, NotStarted, false, None)
    {
      hide InForce, Inv, Rely, Drift, ThreadsDrift;
      ghost var start := View();
      NothingHeld();
      RelyIsReflexive(start);
      RelyOfThreads(start, start);
      RecordKeepsInv(start, KillSwitchState(false, true, Some(interface), xrayUid, NotStarted, false, None));
      state := KillSwitchState(false, true, Some(interface), xrayUid, NotStarted, false, None);
      SameThreads(start, start, View());
      InForceNone(base, firewall.table);
    }

    method StartProcessWatcher(interval: real) returns (r: StartResult)
      requires Valid()
      modifies `state, `stopEvent, `watcherThread, `watchers
      ensures Valid()
      ensures r == InvalidInterval <==> interval <= 0.0
      ensures r == InvalidInterval ==> View() == old(View())
      ensures r != Started && r != InvalidInterval ==> Rely(old(View()), View())
      ensures r == CannotRestart ==> state.watcherState.ProcessDied?
      ensures r == AlreadyWatching ==> !ThreadGone(View())
      ensures old(state).watcherState.ProcessDied? ==> r != Started
      // Exactly one watcher is in the loop afterwards: the new one.
      ensures r == Started ==>
                && |watchers| == |old(watchers)| + 1 && watchers[|old(watchers)|] == Loop
                && watcherThread == Some(|old(watchers)|) && !stopEvent
                && (forall i :: 0 <= i < |old(watchers)| ==> !Live(watchers[i]))
                && state == old(state).(watcherState := Running, triggered := false, triggerReason := None)
    {
      hide InForce, Inv, Rely, Drift;
      if interval <= 0.0 { return InvalidInterval; }
      ghost var start := View();
      Interfere(false);
      Follow(start, start, View());
      r := StartLocked();
    }

    /** The region under `_watcher_lock`. */
    method StartLocked() returns (r: StartResult)
      requires Valid()
      modifies `state, `stopEvent, `watcherThread, `watchers
      ensures Valid() && r != InvalidInterval
      ensures r != Started ==> View() == old(View())
      ensures r == AlreadyWatching <==> !ThreadGone(old(View()))
      ensures r == CannotRestart <==> ThreadGone(old(View())) && old(state).watcherState.ProcessDied?
      ensures r == Started ==>
                && |watchers| == |old(watchers)| + 1 && watchers[|old(watchers)|] == Loop
                && watcherThread == Some(|old(watchers)|) && !stopEvent
                && (forall i :: 0 <= i < |old(watchers)| ==> !Live(watchers[i]))
                && state == BeginStart(old(View())).state
    {
      hide InForce, Inv, Rely, Drift;
      ThreadInRange(View());
      if watcherThread.Some? && !watchers[watcherThread.value].Dead? { return AlreadyWatching; }
      if state.watcherState.ProcessDied? { return CannotRestart; }
      MarkRunning();
      SpawnKeepsInv(View());
      watcherThread, watchers := Some(|watchers|), watchers + [Loop];
      r := Started;
    }

    /** RUNNING is written and the stop event cleared before the thread exists. */
    method MarkRunning()
      requires Valid() && ThreadGone(View()) && !state.watcherState.ProcessDied?
      modifies `state, `stopEvent, `watcherThread, `watchers
      ensures Inv(View(), true) && RulesInv() && !stopEvent && |watchers| == |old(watchers)|
      ensures state == BeginStart(old(View())).state && NoneLive(View())
    {
      hide InForce, Inv, Rely, Drift, NoneLive;
      ThreadGoneMeansSettled(View());
      BeginStartKeepsInv(View());
      state := state.(watcherState := Running, triggered := false, triggerReason := None);
      ghost var running := View();
      NoneLiveReads(old(View()), running);
      Interfere(true);
      RelyWhenSettled(running, View());
      EventKeepsInv(View(), false, true);
      ghost var waiting := View();
      stopEvent := false;
      ghost var cleared := View();
      NoneLiveReads(waiting, cleared);
      Interfere(true);
      RelyWhenSettled(cleared, View());
    }

    /** True means settled: nobody is left who could change the record. */
    method StopProcessWatcher() returns (stopped: bool)
      requires Valid()
      modifies `state, `stopEvent, `watcherThread, `watchers
      ensures Valid() && Drift(old(View()), View()) && stopEvent
      ensures stopped ==> NoneLive(View()) && watcherThread == None && !state.watcherState.Running?
      // False means exactly that the thread has outlived the join.
      ensures !stopped ==> old(watcherThread).Some? && old(watcherThread).value < |watchers| && !watchers[old(watcherThread).value].Dead?
    {
      hide InForce, Inv, Rely, Drift;
      ghost var start := View();
      Interfere(false);
      Follow(start, start, View());
      ghost var running := View();
      EventKeepsInv(running, true, false);
      stopEvent := true;
      ghost var signalled := View();
      DriftIsTransitive(start, running, signalled);
      Interfere(false);
      Follow(start, signalled, View());
      var thread := watcherThread;
      ghost var seen := View();
      if thread.None? {
        ThreadGoneMeansSettled(seen);
        Interfere(false);
        RelyWhenSettled(seen, View());
        Follow(start, seen, View());
        state := StopRunning(state);
        return true;
      }
      Interfere(false);   // thread.join(timeout=2.0)
      Follow(start, seen, View());
      if !watchers[thread.value].Dead? { return false; }
      ghost var joined := View();
      ReleaseThread(thread.value);
      DriftIsTransitive(start, joined, View());
      stopped := true;
    }

    /** After the join: let go of the dead thread and settle the record. */
    method ReleaseThread(thread: nat)
      requires Valid() && thread < |watchers| && watchers[thread].Dead?
      requires watcherThread == Some(thread) || watcherThread == None
      modifies `state, `stopEvent, `watcherThread, `watchers
      ensures Valid() && Drift(old(View()), View()) && stopEvent == old(stopEvent)
      ensures NoneLive(View()) && watcherThread == None && !state.watcherState.Running?
    {
      hide InForce, Inv, Rely, Drift;
      ghost var joined := View();
      ThreadGoneMeansSettled(joined);
      if watcherThread == Some(thread) { watcherThread := None; }
      ghost var released := View();
      assert released == joined.(thread := None);
      Interfere(false);
      RelyWhenSettled(released, View());
      ThreadGoneMeansSettled(View());
      Follow(joined, released, View());
      state := StopRunning(state);
    }

    /** `done` is false on the two early returns; `removed` counts the removal commands
        that took effect. */
    method Deactivate() returns (done: bool, ghost removed: nat)
      requires Valid()
      modifies this, firewall
      ensures Valid() && ThreadsDrift(old(View()), View())
      ensures done ==> NoneLive(View()) && watcherThread == None && stopEvent
      // The snapshot's trigger is kept; one that lands during the call is not.
      ensures done ==> state == KillSwitchState(old(state.kernelCapable), false, None, None, Stopped,
                                                old(state.triggered), old(state.triggerReason))
      ensures !done ==> Drift(old(View()), View())
      // What happens to the table: a prefix of the removal commands runs.
      ensures removed <= 2 && (done && old(KernelActive()) ==> removed == 2)
      ensures !old(KernelActive()) ==> removed == 0 && firewall.table == old(firewall.table)
      ensures old(KernelActive()) ==> Removed(old(firewall.table), old(state.interface).value, old(state.xrayUid), removed, firewall.table)
      // A complete ruleset gives way to the table underneath; anything else removed is lost.
      ensures held == if old(Recoverable()) then 2 - removed else if removed > 0 then 0 else old(held)
      ensures base == if old(Recoverable()) || removed == 0 then old(base) else firewall.table
      ensures done ==> held == 0 && firewall.table == base
      // When it completes, exactly: dead threads leave only the table to decide.
      ensures done && old(KernelActive()) ==> FullyRemovable(old(firewall.table), old(state.interface).value, old(state.xrayUid))
      ensures firewall.reliable && old(AllDead()) ==>
                (done <==> (old(KernelActive()) ==> FullyRemovable(old(firewall.table), old(state.interface).value, old(state.xrayUid))))
      ensures firewall.reliable && old(KernelActive()) && FullyRemovable(old(firewall.table), old(state.interface).value, old(state.xrayUid)) ==>
                removed == 2
      ensures firewall.reliable && old(KernelActive()) && Removable(old(firewall.table), old(state.interface).value, old(state.xrayUid)) ==>
                removed >= 1
      ensures old(KernelActive()) && removed == 2 ==> FullyRemovable(old(firewall.table), old(state.interface).value, old(state.xrayUid))
      // A retry needs a rule to delete: once they are gone it can never complete.
      ensures old(KernelActive()) && !Removable(old(firewall.table), old(state.interface).value, old(state.xrayUid)) ==>
                !done && removed == 0
    {
      hide InForce, Removed, Removable, FullyRemovable, Inv, Rely, Drift, ThreadsDrift, NoneLive, BeginStart, Split;
      removed := 0;
      ghost var start := View();
      var current := state;
      RecordIsCoherent(start);
      Interfere(false);
      Follow(start, start, View());
      DriftOfThreads(start, View());
      if current.kernelCapable && current.active && current.interface.Some? {
        var ok;
        ok, removed := RemoveRules();
        if !ok { return false, removed; }
      }
      ghost var cleared := View();
      Interfere(false);
      Follow(start, cleared, View());
      ghost var before := View();
      var stopped := StopProcessWatcher();
      DriftIsTransitive(start, before, View());
      DriftOfThreads(start, View());
      if !stopped { return false, removed; }
      ghost var settled := View();
      RecordInactive(current);
      ThreadsDriftOn(start, settled, View());
      done := true;
    }

    /** The last step of `deactivate`: the snapshot's record, no longer active. */
    method RecordInactive(snapshot: KillSwitchState)
      requires Valid() && NoneLive(View()) && held == 0
      requires snapshot.triggered <==> snapshot.triggerReason.Some?
      modifies `state, `stopEvent, `watcherThread, `watchers
      ensures Valid() && NoneLive(View()) && state == Deactivated(snapshot) && firewall.table == base
      ensures ThreadsDrift(old(View()), View()) && watcherThread == old(watcherThread) && stopEvent == old(stopEvent)
    {
      hide InForce, Inv, Rely, Drift, ThreadsDrift, NoneLive;
      ghost var settled := View();
      Interfere(false);
      RelyWhenSettled(settled, View());
      RelyOfThreads(settled, View());
      RecordKeepsInv(View(), Deactivated(snapshot));
      NothingHeld();
      ghost var last := View();
      state := Deactivated(snapshot);
      assert View() == last.(state := state);
      SameThreads(settled, last, View());
      InForceNone(base, firewall.table);
    }

    /** The removal step of `deactivate`, on the recorded interface and uid. */
    method RemoveRules() returns (ok: bool, ghost removed: nat)
      requires RulesInv() && KernelActive()
      modifies `base, `held, firewall
      ensures RulesInv() && removed <= 2 && (ok <==> removed == 2)
      ensures Removed(old(firewall.table), state.interface.value, state.xrayUid, removed, firewall.table)
      ensures held == if old(Recoverable()) then 2 - removed else if removed > 0 then 0 else old(held)
      ensures base == if old(Recoverable()) || removed == 0 then old(base) else firewall.table
      ensures ok ==> FullyRemovable(old(firewall.table), state.interface.value, state.xrayUid)
      ensures firewall.reliable && FullyRemovable(old(firewall.table), state.interface.value, state.xrayUid) ==> ok
      ensures removed > 0 ==> Removable(old(firewall.table), state.interface.value, state.xrayUid)
      ensures firewall.reliable && Removable(old(firewall.table), state.interface.value, state.xrayUid) ==> removed >= 1
    {
      hide InForce, Removed, Removable, FullyRemovable, Split;
      var interface, xrayUid := state.interface.value, state.xrayUid;
      ghost var full, recoverable := firewall.table, Recoverable();
      ok, removed := RemoveKillSwitchRules(interface, xrayUid, firewall);
      RemovedNone(full, interface, xrayUid, firewall.table);
      if recoverable {
        RemovalLeavesPrefix(base, interface, xrayUid, full, removed, firewall.table);
        held := 2 - removed;
      } else if removed > 0 {
        base, held := firewall.table, 0;
        InForceNone(base, firewall.table);
      }
    }

    lemma NothingHeld()
      requires RulesInv()
      ensures held == 0 ==> firewall.table == base
    {
    }
  }

  // ---- whole runs ----

  /** What a controller can ask for. */
  datatype Call = Activate(interface: string, xrayUid: Option<nat>, kernelProbe: bool) | Start(interval: real) | Stop | Deactivate

  /** Both chains exist, and no INPUT rule is a kill-switch rule. */
  ghost predicate Clean(t: Table) {
    && "OUTPUT" in t && "INPUT" in t
    && forall interface, uid :: ["-i", interface] + OwnerMatch(uid) !in t["INPUT"]
  }

  predicate PlainInterface(interface: string) {
    IsWord(interface) && interface != "-I"
  }

  predicate PlainCalls(calls: seq<Call>) {
    forall c <- calls :: c.Activate? ==> PlainInterface(c.interface)
  }

  /** The manager stands on `original`: either that is the table, or it carries one
      complete ruleset on top, for the recorded interface and uid. */
  ghost predicate Pristine(manager: KillSwitchManager, original: Table)
    reads manager, manager.firewall
  {
    && manager.Valid() && Clean(original) && manager.base == original && (manager.held == 0 || manager.held == 2)
    && (manager.state.interface.Some? ==> PlainInterface(manager.state.interface.value))
  }

  /** What `Pristine` says of the table alone. */
  lemma PristineTable(manager: KillSwitchManager, original: Table)
    requires Pristine(manager, original)
    ensures var s, t := manager.state, manager.firewall.table;
            || t == original
            || (s.active && s.kernelCapable && s.interface.Some? && s.xrayUid.Some?
                && t == WithKillSwitch(original, s.interface.value, s.xrayUid.value))
  {
    hide Inv, InForce, WithKillSwitch;
    var s := manager.state;
    if manager.held == 2 {
      WholeRuleset(original, s.interface.value, s.xrayUid, manager.firewall.table);
    } else {
      NoRuleInForce(original, if s.interface.Some? then s.interface.value else "", s.xrayUid, manager.firewall.table);
    }
  }

  lemma WholeRuleset(under: Table, interface: string, uid: Option<nat>, table: Table)
    requires "OUTPUT" in under && "INPUT" in under && PlainInterface(interface) && InForce(under, interface, uid, 2, table)
    ensures uid.Some? && table == WithKillSwitch(under, interface, uid.value)
  {
    hide RunAll;
    var rules := BuildKillSwitchRules(interface, uid).value;
    assert rules[..2] == rules;
    KillSwitchTable(under, interface, uid.value);
  }

  /** On a clean table a ruleset can always be applied, and nothing can be removed. */
  lemma CleanTable(t: Table, interface: string, uid: Option<nat>)
    requires Clean(t) && PlainInterface(interface)
    ensures uid.Some? ==> Appliable(t, interface, uid)
    ensures !Removable(t, interface, uid)
  {
    hide RunAll, RuleText, Rewrite, Exec;
    if uid.Some? {
      KillSwitchTable(t, interface, uid.value);
      PlainSplit(interface);
      RemovableIffInstalled(t, interface, uid.value);
      PlainRules(interface, uid.value);
    }
  }

  /** No call of the run completed a `deactivate`. */
  ghost predicate NoneCompleted(completed: seq<bool>) {
    forall n :: 0 <= n < |completed| ==> !completed[n]
  }

  /** No call of the run left a ruleset half applied or half removed. */
  ghost predicate AllOrNothing(commands: seq<nat>) {
    forall n :: 0 <= n < |commands| ==> commands[n] != 1
  }

  lemma NothingCalledYet()
    ensures NoneCompleted([]) && AllOrNothing([])
  {
  }

  lemma OneMoreCall(completed: seq<bool>, done: bool, commands: seq<nat>, count: nat)
    ensures NoneCompleted(completed + [done]) <==> NoneCompleted(completed) && !done
    ensures AllOrNothing(commands + [count]) <==> AllOrNothing(commands) && count != 1
  {
    var c, k := completed + [done], commands + [count];
    assert forall n :: 0 <= n < |completed| ==> c[n] == completed[n];
    assert forall n :: 0 <= n < |commands| ==> k[n] == commands[n];
    assert c[|completed|] == done && k[|commands|] == count;
  }

  /** Whole runs of one controller over any executor.  For each call, `completed` says
      whether it was a completed `deactivate` and `commands` how many firewall commands
      took effect.  Calls are all-or-nothing when no entry is 1. */
  method RunController(manager: KillSwitchManager, calls: seq<Call>, ghost original: Table)
    returns (ghost completed: seq<bool>, ghost commands: seq<nat>)
    requires manager.Valid()
    modifies manager, manager.firewall
    ensures manager.Valid() && |completed| == |commands| == |calls|
    ensures forall n :: 0 <= n < |calls| ==> (completed[n] ==> calls[n].Deactivate?) && commands[n] <= 2
    ensures forall n :: 0 <= n < |calls| && commands[n] > 0 ==> calls[n].Activate? || calls[n].Deactivate?
    ensures |calls| > 0 && completed[|calls| - 1] ==> !manager.state.active
    // The latch: a recorded trigger stays, unchanged, until a deactivate completes.
    ensures old(manager.state).watcherState.ProcessDied? && NoneCompleted(completed) ==>
              manager.state == old(manager.state)
    // All-or-nothing calls never leave anything but `original` or one complete ruleset on it,
    // and a sound executor makes every call all-or-nothing.
    ensures old(Pristine(manager, original)) && PlainCalls(calls) && AllOrNothing(commands) ==>
              Pristine(manager, original)
    ensures old(Pristine(manager, original)) && PlainCalls(calls) && manager.firewall.reliable ==>
              AllOrNothing(commands)
  {
    hide Pristine, PlainInterface, Inv, NoneCompleted, AllOrNothing;
    NothingCalledYet();
    completed, commands := [], [];
    ghost var whole := PlainCalls(calls) && Pristine(manager, original);
    for n := 0 to |calls|
      invariant manager.Valid() && |completed| == |commands| == n
      invariant forall k :: 0 <= k < n ==> (completed[k] ==> calls[k].Deactivate?) && commands[k] <= 2
      invariant forall k :: 0 <= k < n && commands[k] > 0 ==> calls[k].Activate? || calls[k].Deactivate?
      invariant n > 0 && completed[n - 1] ==> !manager.state.active
      invariant old(manager.state).watcherState.ProcessDied? && NoneCompleted(completed) ==>
                  manager.state == old(manager.state)
      invariant whole && AllOrNothing(commands) ==> Pristine(manager, original)
      invariant whole && manager.firewall.reliable ==> AllOrNothing(commands)
    {
      ghost var done, count;
      done, count := RunCall(manager, calls[n], original);
      OneMoreCall(completed, done, commands, count);
      completed, commands := completed + [done], commands + [count];
    }
  }

  /** One call of a run. */
  method RunCall(manager: KillSwitchManager, call: Call, ghost original: Table) returns (ghost done: bool, ghost count: nat)
    requires manager.Valid()
    modifies manager, manager.firewall
    ensures manager.Valid() && count <= 2 && (done ==> call.Deactivate? && !manager.state.active)
    ensures count > 0 ==> call.Activate? || call.Deactivate?
    ensures old(manager.state).watcherState.ProcessDied? && !done ==> manager.state == old(manager.state)
    ensures var plain := call.Activate? ==> PlainInterface(call.interface);
            && (old(Pristine(manager, original)) && plain && count != 1 ==> Pristine(manager, original))
            && (old(Pristine(manager, original)) && plain && manager.firewall.reliable ==> count != 1)
  {
    hide InForce, Inv, Rely, Drift, ThreadsDrift, NoneLive, Clean, Appliable, Removed, Removable, FullyRemovable, PlainInterface;
    done, count := false, 0;
    ghost var before := manager.View();
    RecordIsCoherent(before);
    ghost var pristine := Pristine(manager, original);
    match call {
      case Activate(interface, xrayUid, kernelProbe) =>
        if pristine && PlainInterface(interface) { CleanTable(original, interface, xrayUid); }
        var r;
        r, count := manager.Activate(interface, xrayUid, kernelProbe);
        if r != Activated { Latched(before, manager.View()); Kept(before, manager.View()); }
        else { NoRuleInForce(original, interface, xrayUid, manager.firewall.table); }
      case Start(interval) =>
        var r := manager.StartProcessWatcher(interval);
        if r != Started && r != InvalidInterval { Latched(before, manager.View()); Kept(before, manager.View()); }
      case Stop =>
        var stopped := manager.StopProcessWatcher();
        Latched(before, manager.View());
        Kept(before, manager.View());
      case Deactivate =>
        if pristine && manager.KernelActive() {
          ghost var interface, uid := manager.state.interface.value, manager.state.xrayUid;
          CleanTable(original, interface, uid);
          manager.NothingHeld();
          if manager.held == 2 {
            PlainSplit(interface);
            FullRulesetRemovable(original, interface, uid, manager.firewall.table);
          }
        }
        var completed;
        completed, count := manager.Deactivate();
        done := completed;
        if !completed { Latched(before, manager.View()); Kept(before, manager.View()); }
    }
  }

  /** The same from the start: a new manager over a clean table.  With calls that are
      all-or-nothing, as those of a sound executor are, the table ends as it was, or with
      exactly one copy of the two rules, for the recorded interface and uid, and that only
      while the manager is active and kernel-capable. */
  method RunFromStart(firewall: RuleExecutor, calls: seq<Call>)
    returns (manager: KillSwitchManager, ghost commands: seq<nat>)
    requires Clean(firewall.table) && PlainCalls(calls)
    modifies firewall
    ensures manager.Valid() && manager.firewall == firewall && |commands| == |calls|
    ensures firewall.reliable ==> AllOrNothing(commands)
    ensures AllOrNothing(commands) ==>
              var s := manager.state;
              || firewall.table == old(firewall.table)
              || (s.active && s.kernelCapable && s.interface.Some? && s.xrayUid.Some?
                  && firewall.table == WithKillSwitch(old(firewall.table), s.interface.value, s.xrayUid.value))
  {
    hide Inv, Clean, PlainInterface, WithKillSwitch;
    ghost var original := firewall.table;
    manager := new KillSwitchManager(firewall);
    ghost var completed;
    completed, commands := RunController(manager, calls, original);
    if AllOrNothing(commands) { PristineTable(manager, original); }
  }

  /** Once one of the two rules has no copy left but the record still says kernel-active, no
      number of further `deactivate` calls ever completes; the most they do is delete older
      copies of the INPUT rule. */
  method RetryDeactivate(manager: KillSwitchManager, attempts: nat) returns (done: bool)
    requires manager.Valid() && manager.KernelActive()
    requires !FullyRemovable(manager.firewall.table, manager.state.interface.value, manager.state.xrayUid)
    modifies manager, manager.firewall
    ensures manager.Valid() && !done && manager.KernelActive()
    ensures manager.state.interface == old(manager.state.interface) && manager.state.xrayUid == old(manager.state.xrayUid)
    ensures manager.firewall.table - {"INPUT"} == old(manager.firewall.table) - {"INPUT"}
    ensures !Removable(old(manager.firewall.table), old(manager.state.interface).value, old(manager.state.xrayUid)) ==>
              manager.firewall.table == old(manager.firewall.table)
  {
    hide InForce, Removed, Removable, FullyRemovable, Inv, Rely, Drift, ThreadsDrift, NoneLive;
    done := false;
    ghost var interface, uid, start := manager.state.interface.value, manager.state.xrayUid, manager.firewall.table;
    for n := 0 to attempts
      invariant manager.Valid() && !done && manager.KernelActive()
      invariant manager.state.interface == Some(interface) && manager.state.xrayUid == uid
      invariant !FullyRemovable(manager.firewall.table, interface, uid)
      invariant manager.firewall.table - {"INPUT"} == start - {"INPUT"}
      invariant !Removable(start, interface, uid) ==> manager.firewall.table == start
    {
      ghost var before, table := manager.View(), manager.firewall.table;
      ghost var removed;
      done, removed := manager.Deactivate();
      StillNotRemovable(table, interface, uid, removed, manager.firewall.table);
      Kept(before, manager.View());
    }
  }

  lemma Latched(s: Shared, t: Shared)
    requires Rely(s, t) || Drift(s, t)
    ensures s.state.watcherState.ProcessDied? ==> t.state == s.state
  {
  }

  /** Nothing that is refused or unfinished changes what is protected. */
  lemma Kept(s: Shared, t: Shared)
    requires Rely(s, t) || Drift(s, t)
    ensures t.state.active == s.state.active && t.state.kernelCapable == s.state.kernelCapable
    ensures t.state.interface == s.state.interface && t.state.xrayUid == s.state.xrayUid
  {
  }

  lemma NoneLiveReads(s: Shared, t: Shared)
    requires s.watchers == t.watchers
    ensures NoneLive(s) == NoneLive(t)
  {
  }

  /** Writing the record moves no thread. */
  lemma SameThreads(s: Shared, t: Shared, u: Shared)
    requires ThreadsDrift(s, t) && u == t.(state := u.state)
    ensures ThreadsDrift(s, u)
  {
  }

  lemma ThreadsDriftOn(s: Shared, t: Shared, u: Shared)
    requires ThreadsDrift(s, t) && ThreadsDrift(t, u)
    ensures ThreadsDrift(s, u)
  {
  }

  lemma RelyOfThreads(s: Shared, t: Shared)
    requires Rely(s, t)
    ensures ThreadsDrift(s, t)
  {
  }

  lemma PlainSplit(interface: string)
    requires PlainInterface(interface)
    ensures "-I" !in Split(interface, ' ')
  {
    SplitWord(interface);
  }

  lemma NoRuleInForce(under: Table, interface: string, uid: Option<nat>, table: Table)
    ensures InForce(under, interface, uid, 0, table) ==> table == under
  {
  }

  lemma RemovedNone(before: Table, interface: string, uid: Option<nat>, after: Table)
    ensures Removed(before, interface, uid, 0, after) ==> after == before
  {
  }

  lemma InForceNone(under: Table, table: Table)
    requires under == table
    ensures forall interface, uid :: InForce(under, interface, uid, 0, table)
  {
  }
}
