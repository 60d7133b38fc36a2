/** The shared record of `KillSwitchManager` and the atomic steps of its watcher
    threads (orchestrator/bimarz/killswitch_manager.py:217-290).

    A region under `_state_lock` or `_watcher_lock`, and each event or thread
    operation outside them, is one step. */
module WatcherProtocol {
  import opened Text

  datatype WatcherState = NotStarted | Running | Stopped | ProcessDied

  datatype KillSwitchState = KillSwitchState(
    kernelCapable: bool,
    active: bool,
    interface: Option<string>,
    xrayUid: Option<nat>,
    watcherState: WatcherState,
    triggered: bool,
    triggerReason: Option<string>)

  /** Where a watcher thread is. */
  datatype Pc =
    | Loop                        // about to test the stop event of the while loop
    | Poll                        // about to call poll_fn
    | Recheck(reason: string)     // poll failed or said dead; about to re-test the stop event
    | Trigger(reason: string)     // about to enter the locked region of _trigger
    | SetStop                     // triggered; about to set the stop event
    | Wait                        // waiting on the stop event with a timeout
    | WriteBack                   // epilogue: about to turn RUNNING into STOPPED
    | Release                     // epilogue: about to give up _watcher_thread
    | Exiting                     // returned; the thread is still alive
    | Dead

  datatype PollResult = Alive | NotAlive | Failed(text: string)

  /** The fields of the manager, with the program counters of all threads ever started. */
  datatype Shared = Shared(state: KillSwitchState, stop: bool, thread: Option<nat>, watchers: seq<Pc>)

  /** A thread that may still touch the shared record. */
  predicate Live(pc: Pc) { !pc.Exiting? && !pc.Dead? }

  /** A thread inside its polling loop; no other can trigger. */
  predicate CanTrigger(pc: Pc) { pc.Loop? || pc.Poll? || pc.Recheck? || pc.Trigger? || pc.Wait? }

  function Reason(poll: PollResult): string
    requires !poll.Alive?
  {
    match poll
    case NotAlive => "xray-core unexpectedly stopped"
    case Failed(text) => "Xray liveness check failed: " + text
  }

  /** One step of watcher i; `poll` is what poll_fn answers if it is called. */
  function WatcherStep(s: Shared, i: nat, poll: PollResult): (t: Shared)
    requires i < |s.watchers|
    ensures |t.watchers| == |s.watchers|
  {
    match s.watchers[i]
    case Loop => At(s, i, if s.stop then WriteBack else Poll)
    case Poll => At(s, i, if poll.Alive? then Wait else Recheck(Reason(poll)))
    case Recheck(reason) => At(s, i, if s.stop then WriteBack else Trigger(reason))
    case Trigger(reason) =>
      if s.stop || !s.state.active then At(s, i, WriteBack)
      else At(s.(state := s.state.(watcherState := ProcessDied, triggered := true, triggerReason := Some(reason))), i, SetStop)
    case SetStop => At(s.(stop := true), i, WriteBack)
    case Wait => At(s, i, if s.stop then WriteBack else Loop)
    case WriteBack => At(s.(state := StopRunning(s.state)), i, Release)
    case Release => At(s.(thread := if s.thread == Some(i) then None else s.thread), i, Exiting)
    case Exiting => At(s, i, Dead)
    case Dead => s
  }

  function At(s: Shared, i: nat, pc: Pc): Shared
    requires i < |s.watchers|
  {
    s.(watchers := s.watchers[i := pc])
  }

  /** `RUNNING` becomes `STOPPED`; anything else stays. */
  function StopRunning(state: KillSwitchState): KillSwitchState {
    if state.watcherState.Running? then state.(watcherState := Stopped) else state
  }

  /** What holds between any two steps.  `starting` is the inside of
      `start_process_watcher`: RUNNING is already written, no thread exists yet. */
  ghost predicate Inv(s: Shared, starting: bool) {
    ThreadsInv(s, starting) && RecordInv(s.state, s.watchers)
  }

  /** Only the newest thread is live, and `_watcher_thread` names it; RUNNING means it
      has not yet written back. */
  ghost predicate ThreadsInv(s: Shared, starting: bool) {
    && (s.thread.Some? ==> s.thread.value + 1 == |s.watchers|)
    && (forall i :: 0 <= i < |s.watchers| && Live(s.watchers[i]) ==> s.thread == Some(i))
    && (starting ==> NoneLive(s))
    && (s.state.watcherState.Running? && !starting ==>
          s.thread.Some? && (CanTrigger(s.watchers[s.thread.value]) || s.watchers[s.thread.value].WriteBack?))
  }

  /** PROCESS_DIED is active, triggered and explained, and nobody is left to trigger. */
  ghost predicate RecordInv(state: KillSwitchState, watchers: seq<Pc>) {
    && (state.watcherState.ProcessDied? ==>
          state.active && state.triggered && forall i :: 0 <= i < |watchers| ==> !CanTrigger(watchers[i]))
    && (forall i :: 0 <= i < |watchers| && watchers[i].SetStop? ==> state.watcherState.ProcessDied?)
    && (state.active <==> state.interface.Some?)
    && (state.triggered <==> state.triggerReason.Some?)
    && (state.active && state.triggered ==> state.watcherState.ProcessDied?)
  }

  ghost predicate NoneLive(s: Shared) {
    forall i :: 0 <= i < |s.watchers| ==> !Live(s.watchers[i])
  }

  /** What any number of watcher steps can do to the shared record. */
  ghost predicate Rely(s: Shared, t: Shared) {
    && Drift(s, t)
    && (NoneLive(s) ==> t.state == s.state && t.stop == s.stop && t.thread == s.thread)
  }

  /** The same, when the controller may also have set the stop event and let go of a
      dead thread in between. */
  ghost predicate Drift(s: Shared, t: Shared) {
    && ThreadsDrift(s, t)
    && (t.state == s.state || t.state == StopRunning(s.state) || (!s.stop && Triggers(s.state, t.state)))
  }

  /** Threads only move on, the stop event stays set, and `_watcher_thread` can only be let go. */
  ghost predicate ThreadsDrift(s: Shared, t: Shared) {
    && |t.watchers| == |s.watchers|
    && (s.stop ==> t.stop)
    && (t.thread == s.thread || t.thread == None)
    && (forall i :: 0 <= i < |s.watchers| ==>
          && (!Live(s.watchers[i]) ==> !Live(t.watchers[i]))
          && (s.watchers[i].Dead? ==> t.watchers[i].Dead?)
          && (!CanTrigger(s.watchers[i]) ==> !CanTrigger(t.watchers[i])))
  }

  lemma DriftOfThreads(s: Shared, t: Shared)
    requires Drift(s, t)
    ensures ThreadsDrift(s, t)
  {
  }

  /** A trigger keeps everything but the watcher state, the flag and the reason. */
  ghost predicate Triggers(a: KillSwitchState, b: KillSwitchState) {
    && a.active && !a.watcherState.ProcessDied? && b.triggerReason.Some?
    && b == a.(watcherState := ProcessDied, triggered := true, triggerReason := b.triggerReason)
  }

  lemma WatcherStepKeepsThreads(s: Shared, i: nat, poll: PollResult, starting: bool)
    requires Inv(s, starting) && i < |s.watchers|
    ensures ThreadsInv(WatcherStep(s, i, poll), starting)
  {
    var t := WatcherStep(s, i, poll);
    assert forall j :: 0 <= j < |s.watchers| && j != i ==> t.watchers[j] == s.watchers[j];
    assert Live(s.watchers[i]) || !Live(t.watchers[i]);
  }

  lemma WatcherStepKeepsRecord(s: Shared, i: nat, poll: PollResult, starting: bool)
    requires Inv(s, starting) && i < |s.watchers|
    ensures RecordInv(WatcherStep(s, i, poll).state, WatcherStep(s, i, poll).watchers)
  {
    var t := WatcherStep(s, i, poll);
    assert forall j :: 0 <= j < |s.watchers| && j != i ==> t.watchers[j] == s.watchers[j];
    assert forall j :: 0 <= j < |s.watchers| && j != i && Live(s.watchers[i]) ==> !Live(s.watchers[j]);
  }

  lemma WatcherStepKeepsInv(s: Shared, i: nat, poll: PollResult, starting: bool)
    requires Inv(s, starting) && i < |s.watchers|
    ensures Inv(WatcherStep(s, i, poll), starting)
  {
    hide WatcherStep, ThreadsInv, RecordInv;
    WatcherStepKeepsThreads(s, i, poll, starting);
    WatcherStepKeepsRecord(s, i, poll, starting);
  }

  lemma WatcherStepRely(s: Shared, i: nat, poll: PollResult, starting: bool)
    requires Inv(s, starting) && i < |s.watchers|
    ensures Rely(s, WatcherStep(s, i, poll))
    ensures var t := WatcherStep(s, i, poll).state;
            && t.active == s.state.active && t.kernelCapable == s.state.kernelCapable
            && t.interface == s.state.interface && t.xrayUid == s.state.xrayUid
  {
    var t := WatcherStep(s, i, poll);
    assert forall j :: 0 <= j < |s.watchers| && j != i ==> t.watchers[j] == s.watchers[j];
    assert Live(s.watchers[i]) || t.watchers[i] == Dead;
  }

  lemma RelyIsReflexive(s: Shared)
    ensures Rely(s, s)
  {
  }

  lemma RelyIsTransitive(s: Shared, t: Shared, u: Shared)
    requires Rely(s, t) && Rely(t, u)
    ensures Rely(s, u)
  {
  }

  lemma DriftIsTransitive(s: Shared, t: Shared, u: Shared)
    requires Drift(s, t) && Drift(t, u)
    ensures Drift(s, u)
  {
  }

  // ---- the controller's steps ----

  /** `start_process_watcher`, first step of the locked region: RUNNING is written. */
  function BeginStart(s: Shared): Shared {
    s.(state := s.state.(watcherState := Running, triggered := false, triggerReason := None))
  }

  /** ... and its last step: the thread is recorded and started. */
  function Spawn(s: Shared): Shared {
    s.(thread := Some(|s.watchers|), watchers := s.watchers + [Loop])
  }

  predicate ThreadGone(s: Shared) {
    s.thread.None? || (s.thread.value < |s.watchers| && s.watchers[s.thread.value].Dead?)
  }

  lemma ThreadGoneMeansSettled(s: Shared)
    requires Inv(s, false) && ThreadGone(s)
    ensures NoneLive(s) && !s.state.watcherState.Running? && StopRunning(s.state) == s.state
    ensures Inv(s.(thread := None), false) && Drift(s, s.(thread := None))
  {
  }

  lemma BeginStartKeepsInv(s: Shared)
    requires Inv(s, false) && ThreadGone(s) && !s.state.watcherState.ProcessDied?
    ensures Inv(BeginStart(s), true)
  {
  }

  lemma SpawnKeepsInv(s: Shared)
    requires Inv(s, true) && s.state.watcherState.Running?
    ensures Inv(Spawn(s), false)
  {
    assert forall i :: 0 <= i < |s.watchers| ==> Spawn(s).watchers[i] == s.watchers[i];
  }

  lemma EventKeepsInv(s: Shared, stop: bool, starting: bool)
    requires Inv(s, starting)
    ensures Inv(s.(stop := stop), starting) && (stop ==> Drift(s, s.(stop := stop)))
  {
  }

  /** Writing the record while inactive (activate) or settled (deactivate). */
  lemma RecordKeepsInv(s: Shared, state: KillSwitchState)
    requires Inv(s, false) && (!s.state.active || NoneLive(s))
    requires !state.watcherState.Running? && !state.watcherState.ProcessDied?
    requires state.active <==> state.interface.Some?
    requires state.triggered <==> state.triggerReason.Some?
    requires !(state.active && state.triggered)
    ensures Inv(s.(state := state), false)
    ensures NoneLive(s) ==> NoneLive(s.(state := state))
  {
  }

  lemma RecordIsCoherent(s: Shared)
    requires Inv(s, false)
    ensures s.state.active <==> s.state.interface.Some?
    ensures s.state.triggered <==> s.state.triggerReason.Some?
    ensures s.state.watcherState.ProcessDied? ==> s.state.active && s.state.triggered
  {
  }

  /** What a controller method knows after letting the watchers run from s to t. */
  lemma Follow(start: Shared, s: Shared, t: Shared)
    requires Inv(start, false) && Inv(t, false)
    requires (s == start || Drift(start, s)) && Rely(s, t)
    ensures Drift(start, t)
    ensures t.state.active == start.state.active && t.state.kernelCapable == start.state.kernelCapable
    ensures t.state.interface == start.state.interface && t.state.xrayUid == start.state.xrayUid
    ensures |t.watchers| == |start.watchers| && (s.stop ==> t.stop)
    ensures BeginStart(t).state == BeginStart(start).state
    ensures forall i :: 0 <= i < |t.watchers| && !t.watchers[i].Dead? ==> !start.watchers[i].Dead?
    ensures forall i :: 0 <= i < |t.watchers| && s.watchers[i].Dead? ==> t.watchers[i].Dead?
    ensures t.thread.Some? ==> t.thread.value < |t.watchers|
    ensures t.thread == s.thread || t.thread == None
    ensures t.thread.Some? ==> t.thread == start.thread
    ensures start.state.watcherState.ProcessDied? ==> t.state == start.state
  {
  }

  /** With no live thread nothing visible moves. */
  lemma RelyWhenSettled(s: Shared, t: Shared)
    requires Rely(s, t) && NoneLive(s)
    ensures t.state == s.state && t.stop == s.stop && t.thread == s.thread
    ensures NoneLive(t) && |t.watchers| == |s.watchers|
  {
  }

  lemma ThreadInRange(s: Shared)
    requires Inv(s, false)
    ensures s.thread.Some? ==> s.thread.value < |s.watchers|
  {
  }

  // ---- whole schedules of watcher steps ----

  /** The scheduler's choices: which thread moves, and what a poll would answer. */
  type Schedule = seq<(nat, PollResult)>

  function RunWatchers(s: Shared, schedule: Schedule): (t: Shared)
    ensures |t.watchers| == |s.watchers|
    decreases |schedule|
  {
    if schedule == [] then s
    else
      var (i, poll) := schedule[0];
      RunWatchers(if i < |s.watchers| then WatcherStep(s, i, poll) else s, schedule[1..])
  }

  /** Every interleaving of watcher steps keeps the invariant and stays within Rely. */
  lemma {:induction false} ScheduleKeepsInv(s: Shared, schedule: Schedule, starting: bool)
    requires Inv(s, starting)
    ensures Inv(RunWatchers(s, schedule), starting) && Rely(s, RunWatchers(s, schedule))
    decreases |schedule|
  {
    if schedule != [] {
      var (i, poll) := schedule[0];
      if i < |s.watchers| {
        var t := WatcherStep(s, i, poll);
        WatcherStepKeepsInv(s, i, poll, starting);
        WatcherStepRely(s, i, poll, starting);
        ScheduleKeepsInv(t, schedule[1..], starting);
        RelyIsTransitive(s, t, RunWatchers(t, schedule[1..]));
      } else {
        ScheduleKeepsInv(s, schedule[1..], starting);
      }
    }
  }

  /** In every interleaving at most one watcher is in its polling loop: the newest one,
      and only while `_watcher_thread` names it. */
  lemma AtMostOnePolling(s: Shared, schedule: Schedule, starting: bool, i: nat, j: nat)
    requires Inv(s, starting) && i < |s.watchers| && j < |s.watchers|
    requires CanTrigger(RunWatchers(s, schedule).watchers[i]) && CanTrigger(RunWatchers(s, schedule).watchers[j])
    ensures i == j && i + 1 == |s.watchers| && !starting && RunWatchers(s, schedule).thread == Some(i)
  {
    ScheduleKeepsInv(s, schedule, starting);
  }

  /** However long a superseded watcher takes to finish, nothing it does is visible to
      its successor or to the controller. */
  lemma {:induction false} FinishingWatcherLeavesSuccessor(s: Shared, schedule: Schedule, starting: bool)
    requires Inv(s, starting)
    requires forall step <- schedule :: step.0 + 1 < |s.watchers|
    ensures var t := RunWatchers(s, schedule);
            && t.state == s.state && t.stop == s.stop && t.thread == s.thread
            && |t.watchers| == |s.watchers| && (|s.watchers| > 0 ==> t.watchers[|s.watchers| - 1] == s.watchers[|s.watchers| - 1])
    decreases |schedule|
  {
    if schedule != [] {
      var (i, poll) := schedule[0];
      assert schedule[0] in schedule;
      WatcherStepKeepsInv(s, i, poll, starting);
      FinishingWatcherLeavesSuccessor(WatcherStep(s, i, poll), schedule[1..], starting);
    }
  }

  /** The trigger latch: once PROCESS_DIED is recorded, no interleaving of watchers
      changes the record, which is active, triggered and has a reason. */
  lemma TriggerLatched(s: Shared, schedule: Schedule)
    requires Inv(s, false) && s.state.watcherState.ProcessDied?
    ensures RunWatchers(s, schedule).state == s.state
    ensures s.state.active && s.state.triggered && s.state.triggerReason.Some?
  {
    ScheduleKeepsInv(s, schedule, false);
  }

  /** No interleaving of watchers changes what the kill switch protects, and none
      triggers once the stop event is set. */
  lemma WatchersKeepProtection(s: Shared, schedule: Schedule)
    requires Inv(s, false)
    ensures var t := RunWatchers(s, schedule).state;
            && t.active == s.state.active && t.kernelCapable == s.state.kernelCapable
            && t.interface == s.state.interface && t.xrayUid == s.state.xrayUid
            && (s.stop ==> t.triggered == s.state.triggered && t.triggerReason == s.state.triggerReason)
  {
    ScheduleKeepsInv(s, schedule, false);
  }

  lemma RunOne(s: Shared, i: nat, poll: PollResult, more: Schedule)
    requires i < |s.watchers|
    ensures RunWatchers(s, [(i, poll)] + more) == RunWatchers(WatcherStep(s, i, poll), more)
  {
    assert ([(i, poll)] + more)[1..] == more;
  }

  /** The purpose of the watcher: a poll that finds the process gone (or fails) is
      recorded as PROCESS_DIED with its reason, unless the kill switch is inactive; the
      stop event is then set and the thread is on its way out. */
  lemma DeadProcessTriggers(s: Shared, i: nat, poll: PollResult)
    requires i < |s.watchers| && s.watchers[i] == Poll && !poll.Alive? && !s.stop
    ensures var t := RunWatchers(s, [(i, poll)] + ([(i, poll)] + ([(i, poll)] + ([(i, poll)] + []))));
            && |t.watchers| == |s.watchers|
            && t.state == (if s.state.active
                           then s.state.(watcherState := ProcessDied, triggered := true, triggerReason := Some(Reason(poll)))
                           else StopRunning(s.state))
            && (s.state.active ==> t.stop && t.watchers[i] == WriteBack)
  {
    var s1 := WatcherStep(s, i, poll);
    var s2 := WatcherStep(s1, i, poll);
    var s3 := WatcherStep(s2, i, poll);
    RunOne(s, i, poll, [(i, poll)] + ([(i, poll)] + ([(i, poll)] + [])));
    RunOne(s1, i, poll, [(i, poll)] + ([(i, poll)] + []));
    RunOne(s2, i, poll, [(i, poll)] + []);
    RunOne(s3, i, poll, []);
  }

  /** While every poll finds the process alive and nobody signals a stop, the record never
      changes and the watcher never leaves its loop. */
  lemma {:induction false} AliveProcessChangesNothing(s: Shared, schedule: Schedule)
    requires !s.stop && forall step <- schedule :: step.1.Alive?
    requires forall i :: 0 <= i < |s.watchers| && Live(s.watchers[i]) ==> AtEase(s.watchers[i])
    ensures var t := RunWatchers(s, schedule);
            && t.state == s.state && !t.stop && t.thread == s.thread && |t.watchers| == |s.watchers|
            && forall i :: 0 <= i < |s.watchers| ==> (AtEase(s.watchers[i]) <==> AtEase(t.watchers[i]))
    decreases |schedule|
  {
    if schedule != [] {
      var (i, poll) := schedule[0];
      assert schedule[0] in schedule;
      if i < |s.watchers| {
        var t := WatcherStep(s, i, poll);
        assert forall j :: 0 <= j < |s.watchers| && j != i ==> t.watchers[j] == s.watchers[j];
        AliveProcessChangesNothing(t, schedule[1..]);
      } else {
        AliveProcessChangesNothing(s, schedule[1..]);
      }
    }
  }

  /** How many steps of watcher i a schedule holds. */
  function StepsOf(schedule: Schedule, i: nat): nat {
    if schedule == [] then 0 else StepsOf(schedule[1..], i) + if schedule[0].0 == i then 1 else 0
  }

  /** How many of its own steps a watcher is from recording a trigger, once every poll fails. */
  function StepsToTrigger(pc: Pc): nat {
    match pc
    case Wait => 5 case Loop => 4 case Poll => 3 case Recheck(_) => 2 case Trigger(_) => 1 case _ => 0
  }

  /** A reason that some poll of the schedule, or one already taken, gives. */
  ghost predicate ReasonFrom(pc: Pc, schedule: Schedule, i: nat, reason: string) {
    || (pc.Recheck? && pc.reason == reason) || (pc.Trigger? && pc.reason == reason)
    || exists k :: 0 <= k < |schedule| && schedule[k].0 == i && !schedule[k].1.Alive? && Reason(schedule[k].1) == reason
  }

  /** Detection: an active kill switch whose watcher is in its loop ends in PROCESS_DIED, with
      the reason of one of the polls, under every schedule in which no poll of that watcher
      finds the process alive and which gives it the steps it needs. */
  lemma {:induction false} FailingPollsTrigger(s: Shared, i: nat, schedule: Schedule)
    requires Inv(s, false) && !s.stop && s.state.active && s.thread == Some(i) && CanTrigger(s.watchers[i])
    requires forall step <- schedule :: step.0 == i ==> !step.1.Alive?
    requires StepsOf(schedule, i) >= StepsToTrigger(s.watchers[i])
    ensures var t := RunWatchers(s, schedule).state;
            && t.watcherState.ProcessDied? && t.triggered && t.triggerReason.Some?
            && ReasonFrom(s.watchers[i], schedule, i, t.triggerReason.value)
    decreases |schedule|
  {
    hide Inv;
    LiveInRange(s, i);
    var (j, poll) := schedule[0];
    assert schedule[0] in schedule;
    var rest := schedule[1..];
    assert forall k :: 0 <= k < |rest| ==> rest[k] == schedule[k + 1];
    if j == i {
      var t := WatcherStep(s, i, poll);
      WatcherStepKeepsInv(s, i, poll, false);
      if s.watchers[i].Trigger? {
        TriggerLatched(t, rest);
      } else {
        FailingPollsTrigger(t, i, rest);
      }
    } else if j < |s.watchers| {
      OthersAreDone(s, i, j);
      var t := WatcherStep(s, j, poll);
      WatcherStepKeepsInv(s, j, poll, false);
      FailingPollsTrigger(t, i, rest);
    } else {
      FailingPollsTrigger(s, i, rest);
    }
  }

  lemma LiveInRange(s: Shared, i: nat)
    requires Inv(s, false) && s.thread == Some(i)
    ensures i + 1 == |s.watchers|
  {
  }

  lemma OthersAreDone(s: Shared, i: nat, j: nat)
    requires Inv(s, false) && s.thread == Some(i) && j < |s.watchers| && j != i
    ensures !Live(s.watchers[j])
  {
  }

  /** So a process that dies after any number of polls found it alive is detected: in every
      interleaving of any alive prefix with five further steps of the watcher whose polls
      find it gone. */
  lemma DeathIsDetected(s: Shared, i: nat, alive: Schedule, dead: Schedule)
    requires Inv(s, false) && !s.stop && s.state.active && s.thread == Some(i) && AtEase(s.watchers[i])
    requires forall step <- alive :: step.1.Alive?
    requires (forall step <- dead :: step.0 == i ==> !step.1.Alive?) && StepsOf(dead, i) >= 5
    ensures RunWatchers(s, alive).state == s.state
    ensures var t := RunWatchers(RunWatchers(s, alive), dead).state;
            && t.watcherState.ProcessDied? && t.triggered && t.triggerReason.Some?
            && (t.triggerReason == Some("xray-core unexpectedly stopped") || "Xray liveness check failed: " <= t.triggerReason.value)
  {
    hide RunWatchers, Inv;
    OnlyOneLive(s, i);
    AliveProcessChangesNothing(s, alive);
    ScheduleKeepsInv(s, alive, false);
    LiveInRange(s, i);
    FailingPollsTrigger(RunWatchers(s, alive), i, dead);
  }

  lemma OnlyOneLive(s: Shared, i: nat)
    requires Inv(s, false) && s.thread == Some(i)
    ensures forall j :: 0 <= j < |s.watchers| && Live(s.watchers[j]) ==> j == i
  {
  }

  /** In the loop, with no failed poll behind it. */
  predicate AtEase(pc: Pc) { pc.Loop? || pc.Poll? || pc.Wait? }

  /** How many of its own steps a watcher needs to finish after the stop event is set. */
  function StepsLeft(pc: Pc): nat {
    match pc
    case Loop => 3 case Poll => 4 case Recheck(_) => 3 case Trigger(_) => 3 case SetStop => 3
    case Wait => 3 case WriteBack => 2 case Release => 1 case Exiting => 0 case Dead => 0
  }

  /** Once the stop event is set, a watcher that is given its steps finishes, whatever
      its polls answer: RUNNING is written back and `_watcher_thread` is released. */
  lemma {:induction false} StoppedWatcherFinishes(s: Shared, i: nat, schedule: Schedule)
    requires Inv(s, false) && s.stop && s.thread == Some(i)
    requires forall step <- schedule :: step.0 == i
    requires |schedule| >= StepsLeft(s.watchers[i])
    ensures var t := RunWatchers(s, schedule);
            && NoneLive(t) && (Live(s.watchers[i]) ==> t.thread == None)
            && t.state == if s.state.watcherState.Running? then s.state.(watcherState := Stopped) else s.state
    decreases |schedule|
  {
    if Live(s.watchers[i]) {
      var (j, poll) := schedule[0];
      assert schedule[0] in schedule;
      var t := WatcherStep(s, i, poll);
      WatcherStepKeepsInv(s, i, poll, false);
      if s.watchers[i].Release? {
        ScheduleKeepsInv(t, schedule[1..], false);
      } else {
        StoppedWatcherFinishes(t, i, schedule[1..]);
      }
    } else {
      ScheduleKeepsInv(s, schedule, false);
    }
  }
}
