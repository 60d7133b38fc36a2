/** `ConnectionService` (orchestrator/bimarz/connection.py): transactional start with
    rollback, the failover loop, and the cleanup run by `__aexit__`. */
module Connection {
  import opened Text
  import opened Health
  import opened Failover
  import opened Services
  import opened CleanupPlan
  import opened TunnelSwitch
  import opened FailoverRun

  /** `profiles_by_id`: later entries win. */
  function ProfilesById(profiles: seq<ServerProfile>): (m: Table)
    ensures IsTable(m)
  {
    if profiles == [] then map[]
    else
      var last := profiles[|profiles| - 1];
      ProfilesById(profiles[..|profiles| - 1])[last.profileId := last]
  }

  /** The table `_failover_loop` works on. */
  function ProfileMap(initial: ServerProfile, all: seq<ServerProfile>): (m: Table)
    ensures IsTable(m) && initial.profileId in m
  {
    var m := ProfilesById(all);
    if initial.profileId in m then m else m[initial.profileId := initial]
  }

  ghost predicate LastWithId(profiles: seq<ServerProfile>, i: nat)
    requires i < |profiles|
  {
    forall j :: i < j < |profiles| ==> profiles[j].profileId != profiles[i].profileId
  }

  lemma {:induction false} LastProfileWins(profiles: seq<ServerProfile>)
    ensures forall i :: 0 <= i < |profiles| ==> profiles[i].profileId in ProfilesById(profiles)
    ensures forall i :: 0 <= i < |profiles| && LastWithId(profiles, i) ==> ProfilesById(profiles)[profiles[i].profileId] == profiles[i]
    ensures forall id <- ProfilesById(profiles) :: ProfilesById(profiles)[id] in profiles
  {
    if profiles != [] {
      var n := |profiles| - 1;
      var front, last := profiles[..n], profiles[n];
      LastProfileWins(front);
      assert ProfilesById(profiles) == ProfilesById(front)[last.profileId := last];
      hide ProfilesById;
      assert forall i :: 0 <= i < n ==> front[i] == profiles[i];
      forall i | 0 <= i < |profiles| && LastWithId(profiles, i) ensures ProfilesById(profiles)[profiles[i].profileId] == profiles[i] {
        if i < n { assert LastWithId(front, i); }
      }
      forall id <- ProfilesById(profiles) ensures ProfilesById(profiles)[id] in profiles {
        if id != last.profileId { assert ProfilesById(front)[id] in front; }
      }
    }
  }

  /** The table of the loop: of the given profiles the last with its id, and the initial one
      only where its id is not among theirs. */
  lemma TableOf(initial: ServerProfile, all: seq<ServerProfile>)
    ensures var m := ProfileMap(initial, all);
            && (forall i :: 0 <= i < |all| && LastWithId(all, i) ==> all[i].profileId in m && m[all[i].profileId] == all[i])
            && ((forall p <- all :: p.profileId != initial.profileId) ==> m[initial.profileId] == initial)
            && (forall id <- m :: m[id] in all || m[id] == initial)
  {
    LastProfileWins(all);
    hide ProfilesById;
    if initial.profileId in ProfilesById(all) { assert ProfilesById(all)[initial.profileId] in all; }
  }

  /** `list(profile_map.values())`, in whatever order. */
  method Values(m: Table) returns (profiles: seq<ServerProfile>)
    requires IsTable(m)
    ensures DistinctIds(profiles)
    ensures forall p :: p in profiles <==> p.profileId in m && m[p.profileId] == p
  {
    profiles := [];
    var rest := m.Keys;
    while rest != {}
      invariant rest <= m.Keys && DistinctIds(profiles)
      invariant forall p :: p in profiles <==> p.profileId in m && p.profileId !in rest && m[p.profileId] == p
      decreases |rest|
    {
      var id :| id in rest;
      assert forall p <- profiles :: p.profileId != id;
      profiles, rest := profiles + [m[id]], rest - {id};
    }
  }

  /** Growing the trace by effects of the running phase only: nothing later than an
      outbound removal. */
  ghost predicate Runs(before: seq<Effect>, after: seq<Effect>) {
    before <= after && forall n :: |before| <= n < |after| ==> Stage(after[n]) <= 1
  }

  /** An exception that one of the attempts from number `from` to `to` raised, or the
      refusal of an empty id. */
  predicate Explained(error: Error, faults: nat -> bool, from: nat, to: nat) {
    match error
    case Fault(n) => from <= n < to && faults(n)
    case EmptyProfileId => true
    case _ => false
  }

  /** What the tunnel acquisitions attempt, the first four of `start` having succeeded. */
  function TunnelEffects(client: nat, profile: ServerProfile, reached: nat): seq<Effect> {
    (if reached >= 4 then [OpenClient(client)] else []) + (if reached >= 5 then [Effect.AddOutbound(profile)] else [])
  }

  /** And after them, the kill switch and the two signals. */
  function GuardEffects(killswitch: bool, reached: nat): seq<Effect> {
    (if killswitch && reached >= 6 then [EnableKillSwitch] else []) +
    (if killswitch && reached >= 7 then [StartWatcher] else []) +
    (if reached >= 8 then [RegisterSignal, RegisterSignal] else [])
  }

  /** All that `start` attempts before its loop when `reached` of the eight acquisitions
      succeed; without the kill switch the seventh and eighth are not attempted. */
  function AcquireEffects(dir: nat, process: nat, client: nat, profile: ServerProfile, killswitch: bool, reached: nat): seq<Effect> {
    StartEffects(dir, process, reached) + TunnelEffects(client, profile, reached) + GuardEffects(killswitch, reached)
  }

  /** How many of the acquisitions can raise; without the kill switch the first six. */
  function Needed(killswitch: bool): nat { if killswitch then 8 else 6 }

  /** `reached` is where the first of the acquisitions fails, and 8 when none does. */
  ghost predicate ReachedExactly(faults: nat -> bool, from: nat, killswitch: bool, reached: nat) {
    if killswitch then FailsFirstAt(faults, from, 8, reached)
    else FailsFirstAt(faults, from, 6, if reached < 6 then reached else 6) && (reached < 6 || reached == 8)
  }

  lemma AllOrNot(faults: nat -> bool, from: nat, killswitch: bool, reached: nat)
    requires ReachedExactly(faults, from, killswitch, reached)
    ensures reached <= 8
    ensures reached == 8 <==> !AnyFault(faults, from, Needed(killswitch))
    ensures reached < 8 ==> faults(from + reached) && forall n: nat :: from <= n < from + reached ==> !faults(n)
  {
  }

  /** What `start` shows of the acquisitions that succeeded. */
  function AcquiredEvents(killswitch: bool, reached: nat): seq<Event> {
    (if reached >= 6 then [EngineReady] else []) + (if killswitch && reached >= 7 then [KillSwitchEnabled] else [])
  }

  /** What a rollback shows, `errors` being its messages. */
  function RollbackEvents(process: bool, errors: seq<Step>): seq<Event> {
    (if process && XrayProcess !in errors then [ProcessStopped] else []) + (if errors != [] then [ErrorEvent, ErrorEvent] else [])
  }

  /** What `cleanup` shows. */
  function CleanupEvents(errors: seq<Step>): seq<Event> {
    (if XrayProcess in errors then [] else [ProcessStopped]) + (if errors != [] then [ErrorEvent] else []) + [CleanupDone]
  }

  /** How many signals are registered by the two attempts that come before attempt `end`. */
  function Registered(faults: nat -> bool, end: nat): nat {
    if end < 2 then 0 else (if faults(end - 2) then 0 else 1) + (if faults(end - 1) then 0 else 1)
  }

  function FirstProgress(initial: ServerProfile): Progress {
    Progress(initial.profileId, [], 0, Tunnel(Some(initial), true))
  }

  /** The kill-switch watcher dies in some round that no stop request comes before. */
  ghost predicate DiesBeforeStop(rounds: seq<Round>) {
    exists n :: 0 <= n < |rounds| && rounds[n].watcherDied && forall k :: 0 <= k < n ==> !rounds[k].stopRequested
  }

  /** How the body of `start` ended: how many of its acquisitions succeeded, the attempt
      numbers at which its loop began and it ended, what the loop showed, the tunnel
      and the number of signal handlers. */
  datatype Body = Body(reached: nat, from: nat, end: nat, emitted: seq<Event>, tunnel: Tunnel, signals: nat)

  /** The end of a body whose acquisitions all succeeded: with failover as `RunLoop` says,
      otherwise without an exception and with the tunnel untouched. */
  ghost predicate RanAs(body: Body, faults: nat -> bool, profile: ServerProfile, all: seq<ServerProfile>, rounds: seq<Round>,
                        failing: bool, raised: Option<Error>)
  {
    if failing && profile.profileId != "" then
      var o := RunLoop(ProfileMap(profile, all), rounds, faults, body.from, FirstProgress(profile));
      o.after.tunnel == body.tunnel && o.at == body.end && o.raised == raised && o.emitted == body.emitted
    else
      && body.tunnel == FirstProgress(profile).tunnel && body.end == body.from
      && raised == (if failing then Some(EmptyProfileId) else None)
      && body.emitted == if !failing && DiesBeforeStop(rounds) then [KillSwitchWatcherDied] else []
  }

  /** A batch over the values of a table answers for the whole table. */
  lemma TableResults(table: Table, profiles: seq<ServerProfile>, net: Network, results: map<string, HealthCheckResult>)
    requires IsTable(table) && IsResultMap(profiles, net, results)
    requires forall p :: p in profiles <==> p.profileId in table && table[p.profileId] == p
    ensures results == Results(table, net)
  {
    assert forall id <- table :: table[id] in profiles;
    assert results.Keys == Results(table, net).Keys;
  }

  class ConnectionService {
    const host: Host
    const processSvc: ProcessService
    const engineSvc: EngineService
    var cleaned: bool
    var started: bool
    var processOwned: bool
    var engineOwned: bool
    var outboundOwned: bool
    var killswitchEnabled: bool
    var signalsRegistered: nat
    var events: seq<Event>

    constructor (host: Host, processSvc: ProcessService, engineSvc: EngineService)
      ensures this.host == host && this.processSvc == processSvc && this.engineSvc == engineSvc
      ensures !cleaned && !started && !processOwned && !engineOwned && !outboundOwned && !killswitchEnabled
      ensures signalsRegistered == 0 && events == []
    {
      this.host, this.processSvc, this.engineSvc := host, processSvc, engineSvc;
      cleaned, started, processOwned, engineOwned, outboundOwned, killswitchEnabled := false, false, false, false, false, false;
      signalsRegistered, events := 0, [];
    }

    ghost predicate Wired()
      reads this, host, processSvc, engineSvc
    {
      && processSvc.host == host && engineSvc.host == host
      && processSvc.Valid() && engineSvc.Valid()
    }

    /** Whatever the services hold, the flags know of. */
    ghost predicate Valid()
      reads this, host, processSvc, engineSvc
    {
      Wired() && (processSvc.proc.Some? ==> processOwned)
    }

    method Emit(e: Event)
      modifies `events
      ensures events == old(events) + [e]
    {
      events := events + [e];
    }

    // ---- cleanup ----

    /** The attempts since the trace was `before` are `effects`, and `raised` says
        whether one of them failed. */
    ghost predicate Attempted(before: seq<Effect>, effects: seq<Effect>, raised: bool)
      reads host
    {
      host.trace == before + effects && (raised <==> AnyFault(host.faults, |before|, |effects|))
    }

    method UnregisterSignals() returns (raised: bool)
      requires Valid()
      modifies `signalsRegistered, host`trace
      ensures Valid()
      ensures Attempted(old(host.trace), if old(signalsRegistered) > 0 then [Effect.UnregisterSignals] else [], raised)
      ensures signalsRegistered == if raised then old(signalsRegistered) else 0
    {
      hide Once;
      if signalsRegistered == 0 { return false; }
      var ok := host.Attempt(Effect.UnregisterSignals);
      if ok { signalsRegistered := 0; }
      raised := !ok;
    }

    /** The calls on the kill-switch service, any of which may raise. */
    method KillSwitchCall(e: Effect) returns (raised: bool)
      requires Valid() && (e.StopWatcher? || e.DisableKillSwitch? || e.EnableKillSwitch? || e.StartWatcher?)
      modifies host`trace
      ensures Valid() && Attempted(old(host.trace), [e], raised)
    {
      hide Once;
      var ok := host.Attempt(e);
      raised := !ok;
    }

    method ReleaseOutbound() returns (raised: bool)
      requires Valid()
      modifies `outboundOwned, host`trace, host`outbound
      ensures Valid()
      ensures Attempted(old(host.trace), if old(outboundOwned) && engineSvc.engine.Some? then [Effect.RemoveOutbound] else [], raised)
      ensures outboundOwned == (old(outboundOwned) && raised)
    {
      hide Once;
      if !outboundOwned { return false; }
      var e := engineSvc.RemoveOutbound();
      if e.None? { outboundOwned := false; }
      raised := e.Some?;
    }

    method ReleaseEngine() returns (raised: bool)
      requires Valid()
      modifies `engineOwned, engineSvc, host`trace, host`unclosed
      ensures Valid() && !engineOwned && engineSvc.engine == None
      ensures Attempted(old(host.trace), CloseEffects(old(engineSvc.engine), host.closable), raised)
    {
      hide Once;
      raised := false;
      if engineOwned || engineSvc.engine.Some? {
        var e := engineSvc.Close();
        raised := e.Some?;
        engineOwned := false;
      }
    }

    method ReleaseProcess() returns (raised: bool)
      requires Valid()
      modifies `processOwned, `events, processSvc, host`trace, host`uncleaned, host`unstopped
      ensures Valid() && processSvc.proc == None && processSvc.runtimeDir == None
      ensures Attempted(old(host.trace), if old(processOwned) then StopEffects(old(processSvc.proc), old(processSvc.runtimeDir)) else [], raised)
      ensures processOwned == (old(processOwned) && raised)
      ensures events == old(events) + if old(processOwned) && !raised then [ProcessStopped] else []
    {
      hide Once;
      raised := false;
      if processOwned {
        var e := processSvc.Stop();
        raised := e.Some?;
        if !raised {
          processOwned := false;
          Emit(ProcessStopped);
        }
      }
    }

    method ReleaseKillSwitch() returns (raised: bool)
      requires Valid()
      modifies `killswitchEnabled, host`trace
      ensures Valid()
      ensures Attempted(old(host.trace), if old(killswitchEnabled) then [DisableKillSwitch] else [], raised)
      ensures killswitchEnabled == (old(killswitchEnabled) && raised)
    {
      hide Once;
      if !killswitchEnabled { return false; }
      raised := KillSwitchCall(DisableKillSwitch);
      if !raised { killswitchEnabled := false; }
    }

    method Conclude(failed: bool, emitCleanupDone: bool, markCleaned: bool)
      requires Valid()
      modifies `started, `cleaned, `events
      ensures Valid() && !started && cleaned == (old(cleaned) || markCleaned)
      ensures events == old(events) + (if failed then [ErrorEvent] else []) + (if emitCleanupDone then [CleanupDone] else [])
    {
      hide Once;
      started := false;
      if markCleaned { cleaned := true; }
      if failed { Emit(ErrorEvent); }
      if emitCleanupDone { Emit(CleanupDone); }
    }

    /** `_cleanup_resources`: the attempts depend only on what is owned, never on what
        failed; the messages are exactly those of the steps that raised. */
    method CleanupResources(emitCleanupDone: bool, markCleaned: bool) returns (errors: seq<Step>, ghost plan: Plan)
      requires Valid()
      modifies this, host`trace, host`outbound, host`uncleaned, host`unstopped, host`unclosed, processSvc, engineSvc
      ensures Valid()
      ensures plan == ReleasePlan(old(signalsRegistered) > 0, old(outboundOwned), old(engineSvc.engine), host.closable,
                                  old(processOwned), old(processSvc.proc), old(processSvc.runtimeDir), old(killswitchEnabled))
      ensures host.trace == old(host.trace) + Effects(plan)
      ensures errors == Report(plan, host.faults, |old(host.trace)|)
      ensures engineSvc.engine == None && processSvc.proc == None && processSvc.runtimeDir == None
      ensures !engineOwned && !started && cleaned == (old(cleaned) || markCleaned)
      ensures outboundOwned == (old(outboundOwned) && Outbound in errors)
      ensures processOwned == (old(processOwned) && XrayProcess in errors)
      ensures killswitchEnabled == (old(killswitchEnabled) && KillSwitch in errors)
      ensures errors == [] ==> !outboundOwned && !engineOwned && !processOwned && !killswitchEnabled
      ensures signalsRegistered == if Signals in errors then old(signalsRegistered) else 0
      ensures events == old(events) + (if old(processOwned) && XrayProcess !in errors then [ProcessStopped] else [])
                                    + (if errors != [] then [ErrorEvent] else []) + (if emitCleanupDone then [CleanupDone] else [])
    {
      hide Once, AnyFault, Effects, Report, Wired, Valid, CloseEffects, StopEffects;
      ghost var before := host.trace;
      errors, plan := DetachSteps();
      errors, plan := ReleaseSteps(before, errors, plan);
      Conclude(errors != [], emitCleanupDone, markCleaned);
    }

    /** The first three steps: signal handlers, watcher, outbound. */
    method DetachSteps() returns (errors: seq<Step>, ghost plan: Plan)
      requires Valid()
      modifies `signalsRegistered, `outboundOwned, host`trace, host`outbound
      ensures Valid()
      ensures plan == [(Signals, if old(signalsRegistered) > 0 then [Effect.UnregisterSignals] else []),
                       (Watcher, [StopWatcher]),
                       (Outbound, if old(outboundOwned) && engineSvc.engine.Some? then [Effect.RemoveOutbound] else [])]
      ensures host.trace == old(host.trace) + Effects(plan)
      ensures errors == Report(plan, host.faults, |old(host.trace)|)
      ensures outboundOwned == (old(outboundOwned) && Outbound in errors)
      ensures signalsRegistered == if Signals in errors then old(signalsRegistered) else 0
      ensures XrayProcess !in errors && KillSwitch !in errors
    {
      hide Once, AnyFault, Effects, Report, Wired, Valid, Attempted;
      ghost var start := host.trace;
      ghost var signals := if signalsRegistered > 0 then [Effect.UnregisterSignals] else [];
      ghost var outbound := if outboundOwned && engineSvc.engine.Some? then [Effect.RemoveOutbound] else [];
      EmptyPlan(host.faults, |start|);
      errors, plan := [], [];
      assert start + Effects(plan) == start;

      var raised := UnregisterSignals();
      errors, plan := Noted(start, errors, plan, Signals, signals, raised);

      raised := KillSwitchCall(StopWatcher);
      errors, plan := Noted(start, errors, plan, Watcher, [StopWatcher], raised);

      raised := ReleaseOutbound();
      errors, plan := Noted(start, errors, plan, Outbound, outbound, raised);
    }

    /** The last three steps: client, process, kill switch. */
    method ReleaseSteps(ghost start: seq<Effect>, before: seq<Step>, ghost done: Plan)
      returns (errors: seq<Step>, ghost plan: Plan)
      requires Valid() && host.trace == start + Effects(done)
      requires before == Report(done, host.faults, |start|) && XrayProcess !in before && KillSwitch !in before
      modifies `engineOwned, `processOwned, `killswitchEnabled, `events, engineSvc, processSvc,
               host`trace, host`unclosed, host`uncleaned, host`unstopped
      ensures Valid()
      ensures plan == done + [(Engine, CloseEffects(old(engineSvc.engine), host.closable)),
                              (Step.XrayProcess, if old(processOwned) then StopEffects(old(processSvc.proc), old(processSvc.runtimeDir)) else []),
                              (KillSwitch, if old(killswitchEnabled) then [DisableKillSwitch] else [])]
      ensures host.trace == start + Effects(plan)
      ensures errors == Report(plan, host.faults, |start|)
      ensures engineSvc.engine == None && processSvc.proc == None && processSvc.runtimeDir == None && !engineOwned
      ensures (Outbound in errors <==> Outbound in before) && (Signals in errors <==> Signals in before)
      ensures processOwned == (old(processOwned) && XrayProcess in errors)
      ensures killswitchEnabled == (old(killswitchEnabled) && KillSwitch in errors)
      ensures events == old(events) + if old(processOwned) && XrayProcess !in errors then [ProcessStopped] else []
    {
      hide Once, AnyFault, Effects, Report, Wired, Valid, Attempted, CloseEffects, StopEffects;
      ghost var engine := CloseEffects(engineSvc.engine, host.closable);
      ghost var process := if processOwned then StopEffects(processSvc.proc, processSvc.runtimeDir) else [];
      ghost var killswitch := if killswitchEnabled then [DisableKillSwitch] else [];
      errors, plan := before, done;

      var raised := ReleaseEngine();
      errors, plan := Noted(start, errors, plan, Engine, engine, raised);

      raised := ReleaseProcess();
      errors, plan := Noted(start, errors, plan, XrayProcess, process, raised);

      raised := ReleaseKillSwitch();
      errors, plan := Noted(start, errors, plan, KillSwitch, killswitch, raised);
    }

    /** One message for a step that raised. */
    method Noted(ghost start: seq<Effect>, errors: seq<Step>, ghost plan: Plan, step: Step,
                 ghost effects: seq<Effect>, raised: bool)
      returns (more: seq<Step>, ghost longer: Plan)
      requires Attempted(start + Effects(plan), effects, raised)
      requires errors == Report(plan, host.faults, |start|)
      ensures longer == plan + [(step, effects)]
      ensures host.trace == start + Effects(longer)
      ensures more == Report(longer, host.faults, |start|)
      ensures more == if raised then errors + [step] else errors
    {
      hide AnyFault;
      Extend(plan, step, effects, host.faults, |start|);
      more, longer := if raised then errors + [step] else errors, plan + [(step, effects)];
    }
    // ---- cleanup() ----

    /** `cleanup`: attempts everything, guarded only by the services themselves and, for
        the kill switch, by its flag. */
    method Cleanup() returns (errors: seq<Step>, ghost plan: Plan)
      requires Valid()
      modifies this, host`trace, host`outbound, host`uncleaned, host`unstopped, host`unclosed, processSvc, engineSvc
      ensures Valid() && cleaned
      ensures old(cleaned) ==> host.trace == old(host.trace) && errors == [] && events == old(events)
      // Unlike the rollback, it leaves these flags alone.
      ensures processOwned == old(processOwned) && engineOwned == old(engineOwned)
      ensures outboundOwned == old(outboundOwned) && started == old(started)
      ensures !old(cleaned) ==> events == old(events) + (if XrayProcess in errors then [] else [ProcessStopped])
                                          + (if errors != [] then [ErrorEvent] else []) + [CleanupDone]
      ensures !old(cleaned) ==>
                && plan == ReleasePlan(old(signalsRegistered) > 0, true, old(engineSvc.engine), host.closable,
                                       true, old(processSvc.proc), old(processSvc.runtimeDir), old(killswitchEnabled))
                && host.trace == old(host.trace) + Effects(plan)
                && errors == Report(plan, host.faults, |old(host.trace)|)
                && engineSvc.engine == None && processSvc.proc == None && processSvc.runtimeDir == None
                && killswitchEnabled == (old(killswitchEnabled) && KillSwitch in errors)
    {
      hide Once, AnyFault, Effects, Report, Wired, Valid, CloseEffects, StopEffects;
      if cleaned { return [], []; }
      ghost var before := host.trace;
      errors, plan := CleanupDetach();
      errors, plan := CleanupRelease(before, errors, plan);
      Finish(errors != []);
    }

    /** Its `finally` block. */
    method Finish(failed: bool)
      requires Valid()
      modifies `cleaned, `events
      ensures Valid() && cleaned
      ensures events == old(events) + (if failed then [ErrorEvent] else []) + [CleanupDone]
    {
      hide Once;
      cleaned := true;
      if failed { Emit(ErrorEvent); }
      Emit(CleanupDone);
    }

    method CleanupDetach() returns (errors: seq<Step>, ghost plan: Plan)
      requires Valid()
      modifies `signalsRegistered, host`trace, host`outbound
      ensures Valid()
      ensures plan == [(Signals, if old(signalsRegistered) > 0 then [Effect.UnregisterSignals] else []),
                       (Watcher, [StopWatcher]),
                       (Outbound, if engineSvc.engine.Some? then [Effect.RemoveOutbound] else [])]
      ensures host.trace == old(host.trace) + Effects(plan)
      ensures errors == Report(plan, host.faults, |old(host.trace)|)
      ensures XrayProcess !in errors && KillSwitch !in errors
    {
      hide Once, AnyFault, Effects, Report, Wired, Valid, Attempted;
      ghost var start := host.trace;
      ghost var signals := if signalsRegistered > 0 then [Effect.UnregisterSignals] else [];
      EmptyPlan(host.faults, |start|);
      errors, plan := [], [];
      assert start + Effects(plan) == start;

      var raised := UnregisterSignals();
      errors, plan := Noted(start, errors, plan, Signals, signals, raised);

      raised := KillSwitchCall(StopWatcher);
      errors, plan := Noted(start, errors, plan, Watcher, [StopWatcher], raised);

      raised := CallRemoveOutbound();
      errors, plan := Noted(start, errors, plan, Outbound, if engineSvc.engine.Some? then [Effect.RemoveOutbound] else [], raised);
    }

    method CleanupRelease(ghost start: seq<Effect>, before: seq<Step>, ghost done: Plan)
      returns (errors: seq<Step>, ghost plan: Plan)
      requires Valid() && host.trace == start + Effects(done)
      requires before == Report(done, host.faults, |start|) && XrayProcess !in before && KillSwitch !in before
      modifies `killswitchEnabled, `events, engineSvc, processSvc, host`trace, host`unclosed, host`uncleaned, host`unstopped
      ensures Valid()
      ensures plan == done + [(Engine, CloseEffects(old(engineSvc.engine), host.closable)),
                              (Step.XrayProcess, StopEffects(old(processSvc.proc), old(processSvc.runtimeDir))),
                              (KillSwitch, if old(killswitchEnabled) then [DisableKillSwitch] else [])]
      ensures host.trace == start + Effects(plan)
      ensures errors == Report(plan, host.faults, |start|)
      ensures engineSvc.engine == None && processSvc.proc == None && processSvc.runtimeDir == None
      ensures killswitchEnabled == (old(killswitchEnabled) && KillSwitch in errors)
      ensures events == old(events) + if XrayProcess in errors then [] else [ProcessStopped]
    {
      hide Once, AnyFault, Effects, Report, Wired, Valid, Attempted, CloseEffects, StopEffects;
      ghost var engine := CloseEffects(engineSvc.engine, host.closable);
      ghost var process := StopEffects(processSvc.proc, processSvc.runtimeDir);
      ghost var killswitch := if killswitchEnabled then [DisableKillSwitch] else [];
      errors, plan := before, done;

      var raised := CallClose();
      errors, plan := Noted(start, errors, plan, Engine, engine, raised);

      raised := CallStop();
      errors, plan := Noted(start, errors, plan, XrayProcess, process, raised);

      raised := ReleaseKillSwitch();
      errors, plan := Noted(start, errors, plan, KillSwitch, killswitch, raised);
    }

    method CallRemoveOutbound() returns (raised: bool)
      requires Valid()
      modifies host`trace, host`outbound
      ensures Valid()
      ensures Attempted(old(host.trace), if engineSvc.engine.Some? then [Effect.RemoveOutbound] else [], raised)
    {
      hide Once;
      var e := engineSvc.RemoveOutbound();
      raised := e.Some?;
    }

    method CallClose() returns (raised: bool)
      requires Valid()
      modifies engineSvc, host`trace, host`unclosed
      ensures Valid() && engineSvc.engine == None
      ensures Attempted(old(host.trace), CloseEffects(old(engineSvc.engine), host.closable), raised)
    {
      hide Once;
      var e := engineSvc.Close();
      raised := e.Some?;
    }

    method CallStop() returns (raised: bool)
      requires Valid()
      modifies `events, processSvc, host`trace, host`uncleaned, host`unstopped
      ensures Valid() && processSvc.proc == None && processSvc.runtimeDir == None
      ensures Attempted(old(host.trace), StopEffects(old(processSvc.proc), old(processSvc.runtimeDir)), raised)
      ensures events == old(events) + if raised then [] else [ProcessStopped]
    {
      hide Once;
      var e := processSvc.Stop();
      raised := e.Some?;
      if !raised { Emit(ProcessStopped); }
    }

    // ---- the running phase ----

    function Held(): Tunnel
      reads this, host
    {
      Tunnel(host.outbound, outboundOwned)
    }

    /** xray-core holds something exactly while the flag says so. */
    predicate FlagHonest()
      reads this, host
    {
      outboundOwned <==> host.outbound.Some?
    }

    /** The switch of one failover: remove, add, and on a failure try to put `previous` back. */
    method SwitchOutbound(best: ServerProfile, previous: ServerProfile) returns (switched: bool)
      requires Valid() && engineSvc.engine.Some?
      modifies `outboundOwned, `events, host`trace, host`outbound
      ensures Valid() && Runs(old(host.trace), host.trace)
      ensures (Held(), switched) == Switch(old(Held()), previous, best, true, host.faults, |old(host.trace)|)
      ensures |host.trace| == |old(host.trace)| + SwitchLength(old(Held()), true, host.faults, |old(host.trace)|)
      ensures events == old(events) + if switched then [] else [ErrorEvent]
    {
      hide Once, Recover;
      // try:
      var e := engineSvc.RemoveOutbound();
      if e.None? {
        outboundOwned := false;
        e := engineSvc.AddOutbound(best);
        if e.None? {
          outboundOwned := true;
          return true;
        }
      }
      // except Exception:
      RecoverOutbound(previous);
      switched := false;
    }

    /** The handler: clear what is still owned, then restore `previous`; either may fail. */
    method RecoverOutbound(previous: ServerProfile)
      requires Valid() && engineSvc.engine.Some?
      modifies `outboundOwned, `events, host`trace, host`outbound
      ensures Valid() && Runs(old(host.trace), host.trace)
      ensures Held() == Recover(old(Held()), previous, host.faults, |old(host.trace)|)
      ensures |host.trace| == |old(host.trace)| + if old(outboundOwned) then 2 else 1
      ensures events == old(events) + [ErrorEvent]
    {
      hide Once;
      if outboundOwned {
        var e := engineSvc.RemoveOutbound();
        if e.None? { outboundOwned := false; }
      }
      var e := engineSvc.AddOutbound(previous);
      if e.None? { outboundOwned := true; }
      Emit(ErrorEvent);
    }

    ghost predicate Looping(failover: FailoverManager, table: Table)
      reads this, host, processSvc, engineSvc, failover
    {
      && Valid() && engineSvc.engine.Some? && IsTable(table)
      && failover.Valid() && failover.threshold == THRESHOLD && failover.activeProfileId in table
    }

    /** What `RunRound` and `RunLoop` speak of. */
    ghost function Now(failover: FailoverManager): Progress
      reads this, host, failover
    {
      Progress(failover.activeProfileId, failover.answers, |failover.events|, Held())
    }

    /** One round; `leave` ends the loop without an exception. */
    method FailoverRound(failover: FailoverManager, table: Table, round: Round) returns (raised: Option<Error>, leave: bool)
      requires Looping(failover, table)
      modifies `outboundOwned, `events, host`trace, host`outbound
      modifies failover`activeProfileId, failover`consecutiveFailures, failover`events, failover`answers
      ensures Looping(failover, table) && Runs(old(host.trace), host.trace)
      ensures var o := RunRound(table, round, host.faults, |old(host.trace)|, old(Now(failover)));
              && o.after == Now(failover) && o.at == |host.trace| && o.raised == raised
              && o.leave == leave && events == old(events) + o.emitted
    {
      hide Once, Chain, UnreachableSuffix, IsBest, Results, Switch, Runs;
      ghost var start := host.trace;
      var results;
      raised, results := Observe(failover, table, round.net);
      if raised.Some? { return raised, false; }
      if !failover.ShouldFailover() {
        leave := EndRound(round);
        return;
      }
      var pick := PickBest(results, failover.activeProfileId);
      BestIsUnique(results.Values, failover.activeProfileId, pick, Best(results.Values, failover.activeProfileId));
      if pick.None? {
        Emit(ErrorEvent);
        return None, true;
      }
      BestIsKnown(results, failover.activeProfileId);
      ghost var observed := host.trace;
      raised, leave := SwitchTo(failover, table, round, pick.value);
      RunsOn(start, observed, host.trace);
    }

    /** The checks that end a round. */
    method EndRound(round: Round) returns (leave: bool)
      requires Valid()
      modifies `events
      ensures Valid() && leave == (round.watcherDied || round.stopRequested)
      ensures events == old(events) + WatcherEvents(round)
    {
      hide Once;
      if round.watcherDied {
        Emit(KillSwitchWatcherDied);
        return true;
      }
      leave := round.stopRequested;
    }

    /** The health checks of a round, and the active profile's answer recorded. */
    method Observe(failover: FailoverManager, table: Table, net: Network)
      returns (raised: Option<Error>, results: map<string, HealthCheckResult>)
      requires Looping(failover, table)
      modifies host`trace, failover`consecutiveFailures, failover`answers
      ensures Looping(failover, table) && Runs(old(host.trace), host.trace) && |host.trace| == |old(host.trace)| + 1
      ensures raised == if old(host.Succeeds()) then None else Some(Fault(|old(host.trace)|))
      ensures raised.None? ==> results == Results(table, net)
      ensures failover.answers ==
              if raised.None? then old(failover.answers) + Heard(results, failover.activeProfileId) else old(failover.answers)
    {
      hide Once, Chain, UnreachableSuffix;
      results := map[];
      var profiles := Values(table);
      var ok := host.Attempt(CheckHealth);
      if !ok { return Some(Fault(|host.trace| - 1)), map[]; }
      results := CheckAllProfiles(profiles, net);
      TableResults(table, profiles, net, results);
      if failover.activeProfileId in results {
        failover.RecordActiveProfileResult(results[failover.activeProfileId]);
      }
      raised := None;
    }

    /** Switch the outbound, then the failover record. */
    method SwitchTo(failover: FailoverManager, table: Table, round: Round, pick: string)
      returns (raised: Option<Error>, leave: bool)
      requires Looping(failover, table) && pick in table && pick != failover.activeProfileId
      modifies `outboundOwned, `events, host`trace, host`outbound
      modifies failover`activeProfileId, failover`consecutiveFailures, failover`events, failover`answers
      ensures Looping(failover, table) && Runs(old(host.trace), host.trace)
      ensures var o := RunSwitch(table, round, host.faults, |old(host.trace)|, old(Now(failover)), pick);
              && o.after == Now(failover) && o.at == |host.trace| && o.raised == raised
              && o.leave == leave && events == old(events) + o.emitted
    {
      hide Once, Chain, Runs, Switch, UnreachableSuffix;
      var done := SwitchOutbound(table[pick], table[failover.activeProfileId]);
      if !done { return None, true; }
      var event := failover.TriggerFailover(pick, REASON);
      if event.None? { return Some(EmptyProfileId), false; }
      Emit(Event.FailoverTriggered(event.value));
      leave := EndRound(round);
      raised := None;
    }

    /** `_failover_loop`: exactly `RunLoop`, and so everything proved of it. */
    method FailoverLoop(initial: ServerProfile, all: seq<ServerProfile>, rounds: seq<Round>) returns (raised: Option<Error>)
      requires Valid() && engineSvc.engine.Some? && outboundOwned && host.outbound == Some(initial)
      modifies `outboundOwned, `events, host`trace, host`outbound
      ensures Valid() && FlagHonest() && Runs(old(host.trace), host.trace)
      ensures initial.profileId == "" ==>
                && raised == Some(EmptyProfileId) && Held() == old(Held())
                && host.trace == old(host.trace) && events == old(events)
      ensures initial.profileId != "" ==>
                var o := RunLoop(ProfileMap(initial, all), rounds, host.faults, |old(host.trace)|, FirstProgress(initial));
                && o.after.tunnel == Held() && o.at == |host.trace| && o.raised == raised && events == old(events) + o.emitted
    {
      hide Once, RunRound, Runs, UnreachableSuffix, ProfileMap, Accounted, Chain;
      ghost var start, emitted := host.trace, events;
      RunsNowhere(start);
      var failover := FailoverManager.Create(initial.profileId, THRESHOLD);
      if failover == null { return Some(EmptyProfileId); }
      var table := ProfileMap(initial, all);
      NoAnswersNoSuffix();
      LoopKeeps(table, initial, rounds, host.faults, |start|, FirstProgress(initial), 0);
      ghost var whole := RunLoop(table, rounds, host.faults, |start|, FirstProgress(initial));
      assert rounds[0..] == rounds;
      raised := None;
      var n := 0;
      while n < |rounds|
        invariant n <= |rounds| && Looping(failover, table)
        invariant raised.None? && fresh(failover) && Runs(start, host.trace)
        invariant var rest := RunLoop(table, rounds[n..], host.faults, |host.trace|, Now(failover));
                  && whole.after == rest.after && whole.at == rest.at && whole.raised == rest.raised
                  && emitted + whole.emitted == events + rest.emitted
      {
        ghost var head := host.trace;
        var leave;
        raised, leave := FailoverRound(failover, table, rounds[n]);
        RunsOn(start, head, host.trace);
        assert rounds[n..][1..] == rounds[n + 1..] && rounds[n..][0] == rounds[n];
        if raised.Some? || leave { return; }
        n := n + 1;
      }
    }

    /** `_watch_loop`: at most the death of the kill-switch watcher is reported, and it is
        exactly when no stop request comes before it. */
    method WatchLoop(rounds: seq<Round>)
      requires Valid()
      modifies `events
      ensures Valid() && events == old(events) + if DiesBeforeStop(rounds) then [KillSwitchWatcherDied] else []
    {
      hide Once;
      for n := 0 to |rounds|
        invariant Valid() && events == old(events)
        invariant forall k :: 0 <= k < n ==> !rounds[k].watcherDied && !rounds[k].stopRequested
      {
        if rounds[n].watcherDied {
          Emit(KillSwitchWatcherDied);
          return;
        }
        if rounds[n].stopRequested { return; }
      }
    }

    // ---- start ----

    /** What the services hold after the first `reached` acquisitions. */
    ghost predicate HeldAfter(reached: nat, process: nat, dir: nat, client: nat)
      reads processSvc, engineSvc
    {
      && processSvc.proc == (if reached >= 4 then Some(process) else None)
      && processSvc.runtimeDir == (if reached >= 4 then Some(dir) else None)
      && engineSvc.engine == (if reached >= 5 then Some(client) else None)
    }

    /** The acquisitions of `start`, up to the loop: each attempted once, in order, until
        one fails; exactly the flags of those that succeeded are set. */
    method Acquire(profile: ServerProfile, killswitch: bool) returns (raised: Option<Error>, ghost reached: nat)
      requires Valid() && host.outbound == None && engineSvc.engine == None && processSvc.proc == None
      requires !processOwned && !engineOwned && !outboundOwned && !killswitchEnabled && !started
      modifies this, host, processSvc, engineSvc
      ensures Valid() && FlagHonest() && Runs(old(host.trace), host.trace) && cleaned == old(cleaned)
      ensures reached <= 8 && (raised.None? <==> reached == 8)
      ensures ReachedExactly(host.faults, |old(host.trace)|, killswitch, reached)
      ensures host.processes == old(host.processes) + if reached >= 4 then 1 else 0
      ensures processOwned == (reached >= 4) && engineOwned == (reached >= 5) && outboundOwned == (reached >= 6)
      ensures killswitchEnabled == (killswitch && reached >= 7) && started == (reached == 8)
      ensures HeldAfter(reached, old(host.processes), old(host.dirs), old(host.clients))
      ensures signalsRegistered == old(signalsRegistered) + if reached == 8 then Registered(host.faults, |host.trace|) else 0
      ensures outboundOwned ==> host.outbound == Some(profile)
      ensures events == old(events) + AcquiredEvents(killswitch, reached)
      ensures host.trace == old(host.trace) + AcquireEffects(old(host.dirs), old(host.processes), old(host.clients), profile, killswitch, reached)
      ensures raised.Some? ==> LastFault(host.faults, |old(host.trace)|, |host.trace|, raised.value)
    {
      hide Once, FailsFirstAt, StartEffects, TunnelEffects, Runs;
      ghost var before := host.trace;
      raised, reached := AcquireOwned(profile);
      AllAcquired(old(host.dirs), old(host.processes), old(host.clients), profile);
      if raised.Some? {
        if killswitch { FailsFirstContinues(host.faults, |before|, 6, reached, 2, 0); }
        return;
      }
      ghost var tunnelled := host.trace;
      raised, reached := AcquireGuards(killswitch);
      RunsOn(before, tunnelled, host.trace);
      if killswitch { FailsFirstContinues(host.faults, |before|, 6, 6, 2, reached - 6); }
    }

    /** The acquisitions that carry an ownership flag: process, client, outbound. */
    method AcquireOwned(profile: ServerProfile) returns (raised: Option<Error>, ghost reached: nat)
      requires Valid() && host.outbound == None && engineSvc.engine == None && processSvc.proc == None
      requires !processOwned && !engineOwned && !outboundOwned
      modifies `processOwned, `engineOwned, `outboundOwned, `events, host, processSvc, engineSvc
      ensures Valid() && FlagHonest() && Runs(old(host.trace), host.trace)
      ensures reached <= 6 && (raised.None? <==> reached == 6)
      ensures FailsFirstAt(host.faults, |old(host.trace)|, 6, reached)
      ensures host.processes == old(host.processes) + if reached >= 4 then 1 else 0
      ensures processOwned == (reached >= 4) && engineOwned == (reached >= 5) && outboundOwned == (reached >= 6)
      ensures HeldAfter(reached, old(host.processes), old(host.dirs), old(host.clients))
      ensures outboundOwned ==> host.outbound == Some(profile)
      ensures events == old(events) + if reached >= 6 then [EngineReady] else []
      ensures host.trace == old(host.trace) + StartEffects(old(host.dirs), old(host.processes), reached)
                                            + TunnelEffects(old(host.clients), profile, reached)
      ensures reached == 6 ==> |host.trace| == |old(host.trace)| + 6
      ensures raised.Some? ==> LastFault(host.faults, |old(host.trace)|, |host.trace|, raised.value)
    {
      hide Once, FailsFirstAt, StartEffects, Runs;
      ghost var before := host.trace;
      raised, reached := AcquireProcess();
      if raised.Some? {
        FailsFirstContinues(host.faults, |before|, 4, reached, 2, 0);
        return;
      }
      ghost var launched := host.trace;
      raised, reached := AcquireTunnel(profile);
      RunsOn(before, launched, host.trace);
      AllStarted(old(host.dirs), old(host.processes));
      FailsFirstContinues(host.faults, |before|, 4, 4, 2, reached - 4);
    }

    method AcquireProcess() returns (raised: Option<Error>, ghost reached: nat)
      requires Valid() && processSvc.proc == None && !processOwned
      modifies `processOwned, processSvc, host`trace, host`dirs, host`uncleaned, host`processes, host`unstopped
      ensures Valid() && Runs(old(host.trace), host.trace)
      ensures reached <= 4 && (raised.None? <==> reached == 4) && processOwned == (reached == 4)
      ensures FailsFirstAt(host.faults, |old(host.trace)|, 4, reached)
      ensures host.trace == old(host.trace) + StartEffects(old(host.dirs), old(host.processes), reached)
      ensures reached == 4 ==> |host.trace| == |old(host.trace)| + 4
      ensures processSvc.proc == (if reached == 4 then Some(old(host.processes)) else None)
      ensures processSvc.runtimeDir == (if reached == 4 then Some(old(host.dirs)) else None)
      ensures host.processes == old(host.processes) + if reached >= 4 then 1 else 0
      ensures raised.Some? ==> LastFault(host.faults, |old(host.trace)|, |host.trace|, raised.value)
    {
      hide Once, FailsFirstAt;
      var proc;
      proc, reached := processSvc.Start();
      if proc.Err? { return Some(proc.error), reached; }
      processOwned := true;
      raised := None;
    }

    method AcquireTunnel(profile: ServerProfile) returns (raised: Option<Error>, ghost reached: nat)
      requires Valid() && host.outbound == None && engineSvc.engine == None && processOwned && !outboundOwned && !engineOwned
      modifies `engineOwned, `outboundOwned, `events, engineSvc, host`trace, host`outbound, host`clients, host`unclosed
      ensures Valid() && FlagHonest() && Runs(old(host.trace), host.trace) && 4 <= reached <= 6 && (raised.None? <==> reached == 6)
      ensures FailsFirstAt(host.faults, |old(host.trace)|, 2, reached - 4)
      ensures engineOwned == (reached >= 5) && outboundOwned == (reached >= 6)
      ensures engineSvc.engine == (if reached >= 5 then Some(old(host.clients)) else None)
      ensures outboundOwned ==> host.outbound == Some(profile)
      ensures events == old(events) + if reached >= 6 then [EngineReady] else []
      ensures host.trace == old(host.trace) + TunnelEffects(old(host.clients), profile, reached)
      ensures raised.Some? ==> LastFault(host.faults, |old(host.trace)|, |host.trace|, raised.value)
    {
      hide Once;
      var client := engineSvc.Connect();
      if client.Err? { return Some(client.error), 4; }
      engineOwned := true;
      var e := engineSvc.AddOutbound(profile);
      if e.Some? { return e, 5; }
      outboundOwned := true;
      Emit(EngineReady);
      raised, reached := None, 6;
    }

    method AcquireGuards(killswitch: bool) returns (raised: Option<Error>, ghost reached: nat)
      requires Valid() && !killswitchEnabled && !started
      modifies `killswitchEnabled, `events, `signalsRegistered, `started, host`trace
      ensures Valid() && Runs(old(host.trace), host.trace) && 6 <= reached <= 8 && (raised.None? <==> reached == 8)
      ensures if killswitch then FailsFirstAt(host.faults, |old(host.trace)|, 2, reached - 6) else reached == 8
      ensures killswitchEnabled == (killswitch && reached >= 7) && started == (reached == 8)
      ensures signalsRegistered == old(signalsRegistered) + if reached == 8 then Registered(host.faults, |host.trace|) else 0
      ensures events == old(events) + if killswitchEnabled then [KillSwitchEnabled] else []
      ensures host.trace == old(host.trace) + GuardEffects(killswitch, reached)
      ensures raised.Some? ==> LastFault(host.faults, |old(host.trace)|, |host.trace|, raised.value)
    {
      hide Once, FailsFirstAt;
      reached := 8;
      if killswitch {
        raised, reached := EnableGuard();
        if raised.Some? { return; }
      }
      RegisterSignals();
      started := true;
      raised := None;
    }

    method EnableGuard() returns (raised: Option<Error>, ghost reached: nat)
      requires Valid() && !killswitchEnabled
      modifies `killswitchEnabled, `events, host`trace
      ensures Valid() && 6 <= reached <= 8 && (raised.None? <==> reached == 8)
      ensures FailsFirstAt(host.faults, |old(host.trace)|, 2, reached - 6)
      ensures killswitchEnabled == (reached >= 7)
      ensures events == old(events) + if killswitchEnabled then [KillSwitchEnabled] else []
      ensures host.trace == old(host.trace) + [EnableKillSwitch] + if reached >= 7 then [StartWatcher] else []
      ensures raised.Some? ==> LastFault(host.faults, |old(host.trace)|, |host.trace|, raised.value)
    {
      hide Once;
      var ok := host.Attempt(EnableKillSwitch);
      if !ok { return Some(Fault(|host.trace| - 1)), 6; }
      killswitchEnabled := true;
      Emit(KillSwitchEnabled);
      ok := host.Attempt(StartWatcher);
      if !ok { return Some(Fault(|host.trace| - 1)), 7; }
      raised, reached := None, 8;
    }

    /** A signal that cannot be registered is not an error. */
    method RegisterSignals()
      requires Valid()
      modifies `signalsRegistered, host`trace
      ensures Valid() && host.trace == old(host.trace) + [RegisterSignal, RegisterSignal]
      ensures signalsRegistered == old(signalsRegistered) + (if old(host.faults(|host.trace|)) then 0 else 1)
                                                          + (if old(host.faults(|host.trace| + 1)) then 0 else 1)
    {
      hide Once;
      var ok := host.Attempt(RegisterSignal);   // SIGTERM
      if ok { signalsRegistered := signalsRegistered + 1; }
      ok := host.Attempt(RegisterSignal);       // SIGHUP
      if ok { signalsRegistered := signalsRegistered + 1; }
    }

    /** The body of `start` under its `try`. */
    method Run(profile: ServerProfile, autoFailover: bool, killswitch: bool, all: seq<ServerProfile>, rounds: seq<Round>)
      returns (raised: Option<Error>, ghost body: Body)
      requires Valid() && host.outbound == None && engineSvc.engine == None && processSvc.proc == None
      requires !processOwned && !engineOwned && !outboundOwned && !killswitchEnabled && !started
      modifies this, host, processSvc, engineSvc
      ensures Valid() && FlagHonest() && Runs(old(host.trace), host.trace) && cleaned == old(cleaned)
      ensures body.tunnel == Held() && body.end == |host.trace| && body.signals == signalsRegistered
      ensures ReachedExactly(host.faults, |old(host.trace)|, killswitch, body.reached)
      ensures |old(host.trace)| <= body.from <= |host.trace|
      ensures host.trace[..body.from] ==
              old(host.trace) + AcquireEffects(old(host.dirs), old(host.processes), old(host.clients), profile, killswitch, body.reached)
      ensures HeldAfter(body.reached, old(host.processes), old(host.dirs), old(host.clients))
      ensures host.processes == old(host.processes) + if body.reached >= 4 then 1 else 0
      ensures processOwned == (body.reached >= 4) && killswitchEnabled == (killswitch && body.reached >= 7)
      ensures engineOwned == (body.reached >= 5) && started == (body.reached >= 8)
      ensures Releases(body, body.tunnel.owned, host.closable, old(host.processes), old(host.dirs), old(host.clients), killswitch) ==
              ReleasePlan(signalsRegistered > 0, outboundOwned, engineSvc.engine, host.closable,
                          processOwned, processSvc.proc, processSvc.runtimeDir, killswitchEnabled)
      ensures signalsRegistered == old(signalsRegistered) + if body.reached >= 8 then Registered(host.faults, body.from) else 0
      ensures events == old(events) + AcquiredEvents(killswitch, body.reached) + body.emitted
      ensures raised.Some? ==> Explained(raised.value, host.faults, |old(host.trace)|, |host.trace|)
      ensures body.reached < 8 ==>
                && body.emitted == [] && body.end == body.from
                && raised.Some? && LastFault(host.faults, |old(host.trace)|, body.end, raised.value)
      ensures body.reached >= 8 ==> RanAs(body, host.faults, profile, all, rounds, autoFailover && all != [], raised)
    {
      hide Once, RunLoop, Runs, ProfileMap, AcquireEffects, ReachedExactly, AcquiredEvents, Registered, DiesBeforeStop, ReleasePlan;
      ghost var before, reached := host.trace, 0;
      raised, reached := Acquire(profile, killswitch);
      ghost var acquired, emitted := host.trace, events;
      body := Body(reached, |host.trace|, |host.trace|, [], Held(), signalsRegistered);
      assert host.trace[..|host.trace|] == host.trace;
      RunsPrefix(before, acquired);
      if raised.Some? { return; }
      if autoFailover && all != [] {
        raised := FailoverLoop(profile, all, rounds);
        RunsOn(before, acquired, host.trace);
        RunsPrefix(acquired, host.trace);
      } else {
        WatchLoop(rounds);
      }
      body := Body(reached, |acquired|, |host.trace|, events[|emitted|..], Held(), signalsRegistered);
    }

    /** `_rollback`, for a body that ran since the trace was `start`. */
    method Rollback(ghost start: seq<Effect>) returns (errors: seq<Step>, ghost plan: Plan)
      requires Valid() && Runs(start, host.trace)
      modifies this, host`trace, host`outbound, host`uncleaned, host`unstopped, host`unclosed, processSvc, engineSvc
      ensures Valid() && old(host.trace) <= host.trace && cleaned == old(cleaned) && !started
      ensures engineSvc.engine == None && processSvc.proc == None && processSvc.runtimeDir == None
      ensures StagesBetween(start, 0, 1) ==> Ordered(host.trace)
      // It disables the kill switch only where it was enabled.
      ensures Disables(host.trace, |old(host.trace)|) ==> old(killswitchEnabled)
      ensures plan == ReleasePlan(old(signalsRegistered) > 0, old(outboundOwned), old(engineSvc.engine), host.closable,
                                  old(processOwned), old(processSvc.proc), old(processSvc.runtimeDir), old(killswitchEnabled))
      ensures host.trace == old(host.trace) + Effects(plan) && errors == Report(plan, host.faults, |old(host.trace)|)
      ensures killswitchEnabled == (old(killswitchEnabled) && KillSwitch in errors)
      ensures signalsRegistered == if Signals in errors then old(signalsRegistered) else 0
      ensures events == old(events) + (if old(processOwned) && XrayProcess !in errors then [ProcessStopped] else [])
                                    + (if errors != [] then [ErrorEvent] else [])
    {
      hide Once, Stage, Effects, Report, ReleasePlan, Ordered;
      ghost var body := host.trace;
      ghost var signals, outbound, engine := signalsRegistered > 0, outboundOwned, engineSvc.engine;
      ghost var process, proc, dir, killswitch := processOwned, processSvc.proc, processSvc.runtimeDir, killswitchEnabled;
      errors, plan := CleanupResources(false, false);
      PlanDisables(body, signals, outbound, engine, host.closable, process, proc, dir, killswitch);
      if StagesBetween(start, 0, 1) {
        RunsKeepStages(start, body);
        ReleasePlanOrdered(body, signals, outbound, engine, host.closable, process, proc, dir, killswitch);
      }
    }

    /** Its handler for any exception, up to the raising: the rollback and its errors. */
    method HandleException(ghost start: seq<Effect>)
      requires Valid() && Runs(start, host.trace)
      modifies this, host`trace, host`outbound, host`uncleaned, host`unstopped, host`unclosed, processSvc, engineSvc
      ensures Valid() && cleaned == old(cleaned) && !started
      ensures engineSvc.engine == None && processSvc.proc == None && processSvc.runtimeDir == None
      ensures StagesBetween(start, 0, 1) ==> Ordered(host.trace)
      ensures Disables(host.trace, |old(host.trace)|) ==> old(killswitchEnabled)
      ensures var plan := ReleasePlan(old(signalsRegistered) > 0, old(outboundOwned), old(engineSvc.engine), host.closable,
                                      old(processOwned), old(processSvc.proc), old(processSvc.runtimeDir), old(killswitchEnabled));
              var errors := Report(plan, host.faults, |old(host.trace)|);
              && host.trace == old(host.trace) + Effects(plan)
              && killswitchEnabled == (old(killswitchEnabled) && KillSwitch in errors)
              && signalsRegistered == (if Signals in errors then old(signalsRegistered) else 0)
              && events == old(events) + ((if old(processOwned) && XrayProcess !in errors then [ProcessStopped] else [])
                                         + (if errors != [] then [ErrorEvent, ErrorEvent] else []))
    {
      hide Once, Stage, Effects, Report, ReleasePlan, Ordered, StagesBetween, Runs, Disables;
      var errors;
      ghost var plan;
      errors, plan := Rollback(start);
      if errors != [] { Emit(ErrorEvent); }
    }

    /** `start`: on any exception everything is rolled back and that exception leaves.
        `body` says how its `try` block ended, before any rollback. */
    method Start(profile: ServerProfile, autoFailover: bool, killswitch: bool, all: seq<ServerProfile>, rounds: seq<Round>)
      returns (raised: Option<Error>, ghost body: Body)
      requires Wired() && host.outbound == None && engineSvc.engine == None && processSvc.proc == None
      modifies this, host, processSvc, engineSvc
      ensures Valid() && !cleaned && old(host.trace) <= host.trace
      ensures |old(host.trace)| <= body.end <= |host.trace| && Runs(old(host.trace), host.trace[..body.end])
      // The original exception: the body raised it, not the rollback.
      ensures ReachedExactly(host.faults, |old(host.trace)|, killswitch, body.reached)
      ensures |old(host.trace)| <= body.from <= body.end
      ensures host.trace[..body.from] ==
              old(host.trace) + AcquireEffects(old(host.dirs), old(host.processes), old(host.clients), profile, killswitch, body.reached)
      ensures body.reached < 8 ==>
                && body.emitted == [] && body.end == body.from
                && raised.Some? && LastFault(host.faults, |old(host.trace)|, body.end, raised.value)
      ensures body.reached >= 8 ==> RanAs(body, host.faults, profile, all, rounds, autoFailover && all != [], raised)
      ensures raised.Some? ==> Explained(raised.value, host.faults, |old(host.trace)|, body.end)
      ensures body.signals == old(signalsRegistered) + if body.reached >= 8 then Registered(host.faults, body.from) else 0
      ensures raised.None? ==>
                && body.end == |host.trace| && body.tunnel == Held() && FlagHonest()
                && processOwned && engineOwned && killswitchEnabled == killswitch && started
                && HeldAfter(8, old(host.processes), old(host.dirs), old(host.clients))
                && signalsRegistered == body.signals
                && events == Shown(old(events), profile, killswitch, body)
      ensures raised.Some? ==>
                var plan := Releases(body, body.tunnel.owned, host.closable, old(host.processes), old(host.dirs), old(host.clients), killswitch);
                var errors := Report(plan, host.faults, body.end);
                && engineSvc.engine == None && processSvc.proc == None && processSvc.runtimeDir == None && !started
                && host.trace == host.trace[..body.end] + Effects(plan)
                && killswitchEnabled == (killswitch && body.reached >= 7 && KillSwitch in errors)
                && signalsRegistered == (if Signals in errors then body.signals else 0)
                // A rollback never reports a completed cleanup.
                && events == Shown(old(events), profile, killswitch, body) + RollbackEvents(body.reached >= 4, errors)
      ensures raised.Some? && StagesBetween(old(host.trace), 0, 1) ==> Ordered(host.trace)
      // Whatever is enabled or has been disabled, a process was started before.
      ensures killswitchEnabled ==> host.processes > old(host.processes)
      ensures Disables(host.trace, |old(host.trace)|) ==> host.processes > old(host.processes)
    {
      hide Once, Stage, RunLoop, ProfileMap, Explained, RanAs, Ordered, StagesBetween, AcquireEffects, ReachedExactly, Runs, Disables;
      hide AcquiredEvents, Registered, ReleasePlan, Releases, Report, Effects, LastFault;
      cleaned, started := false, false;
      processOwned, engineOwned, outboundOwned, killswitchEnabled := false, false, false, false;
      Emit(Event.Started(profile.profileId));
      raised, body := Run(profile, autoFailover, killswitch, all, rounds);
      ghost var ran := host.trace;
      assert ran[..body.end] == ran;
      RunsDisableNothing(old(host.trace), ran);
      if raised.Some? {
        HandleException(old(host.trace));
        DisablesOn(ran, host.trace, |old(host.trace)|);
        assert host.trace[..body.end] == ran && host.trace[..body.from] == ran[..body.from];
      }
    }
  }

  /** Without failover nothing leaves a body whose acquisitions succeeded; an empty id leaves
      only a failover loop, and only with a table that holds it. */
  lemma WhatLeaves(body: Body, faults: nat -> bool, profile: ServerProfile, all: seq<ServerProfile>, rounds: seq<Round>,
                          failing: bool, raised: Option<Error>)
    requires RanAs(body, faults, profile, all, rounds, failing, raised)
    ensures !failing ==> raised.None?
    ensures raised == Some(EmptyProfileId) ==> failing && "" in ProfileMap(profile, all)
  {
    hide RunLoop, ProfileMap;
  }

  lemma AllStarted(dir: nat, process: nat)
    ensures forall reached :: reached >= 4 ==> StartEffects(dir, process, reached) == StartEffects(dir, process, 4)
  {
  }

  lemma AllAcquired(dir: nat, process: nat, client: nat, profile: ServerProfile)
    ensures forall reached :: reached >= 6 ==>
              && StartEffects(dir, process, reached) == StartEffects(dir, process, 6)
              && TunnelEffects(client, profile, reached) == TunnelEffects(client, profile, 6)
  {
  }

  lemma RunsPrefix(before: seq<Effect>, after: seq<Effect>)
    requires Runs(before, after)
    ensures |before| <= |after| && after[..|before|] == before
  {
  }

  lemma RunsNowhere(trace: seq<Effect>)
    ensures Runs(trace, trace)
  {
  }

  lemma RunsOn(before: seq<Effect>, mid: seq<Effect>, after: seq<Effect>)
    requires Runs(before, mid) && Runs(mid, after)
    ensures Runs(before, after)
  {
  }

  /** The kill switch is disabled at or after attempt `from`. */
  ghost predicate Disables(trace: seq<Effect>, from: nat) {
    exists n :: from <= n < |trace| && trace[n].DisableKillSwitch?
  }

  /** Every disable comes after an attempt to stop the process. */
  ghost predicate DisablesAfterStop(trace: seq<Effect>, process: nat) {
    forall j :: 0 <= j < |trace| && trace[j].DisableKillSwitch? ==> StoppedBefore(trace, process, j)
  }

  ghost predicate StoppedBefore(trace: seq<Effect>, process: nat, j: nat) {
    exists i :: 0 <= i < j <= |trace| && trace[i] == StopProcess(process)
  }

  lemma RunsDisableNothing(before: seq<Effect>, after: seq<Effect>)
    requires Runs(before, after)
    ensures |before| <= |after| && !Disables(after, |before|)
  {
  }

  lemma DisablesOn(trace: seq<Effect>, more: seq<Effect>, from: nat)
    requires from <= |trace| && trace <= more
    ensures Disables(more, from) <==> Disables(trace, from) || Disables(more, |trace|)
  {
    if n :| from <= n < |more| && more[n].DisableKillSwitch? {
      assert n < |trace| ==> trace[n] == more[n];
    }
    if n :| from <= n < |trace| && trace[n].DisableKillSwitch? {
      assert more[n] == trace[n];
    }
  }

  /** A release plan disables the kill switch only when told to. */
  lemma PlanDisables(trace: seq<Effect>, signals: bool, outbound: bool, engine: Option<nat>, closable: bool,
                     process: bool, proc: Option<nat>, dir: Option<nat>, killswitch: bool)
    ensures Disables(trace + Effects(ReleasePlan(signals, outbound, engine, closable, process, proc, dir, killswitch)), |trace|) ==>
              killswitch
  {
    var plan := ReleasePlan(signals, outbound, engine, closable, process, proc, dir, killswitch);
    EffectsOfSix(plan[0], plan[1], plan[2], plan[3], plan[4], plan[5]);
    assert plan == [plan[0], plan[1], plan[2], plan[3], plan[4], plan[5]];
    hide Effects;
    assert !killswitch ==> forall e <- Effects(plan) :: !e.DisableKillSwitch?;
  }

  /** A session that disables anything, before or after its body ended with `mid`, disables it
      after the stop of its process. */
  lemma StoppedFirst(before: seq<Effect>, mid: seq<Effect>, host: Host, process: nat)
    requires before <= mid && mid <= host.trace && StagesBetween(before, 0, 1) && Ordered(host.trace) && AllReleased(host)
    requires Disables(mid, |before|) || Disables(host.trace, |mid|) ==> process < host.processes
    ensures DisablesAfterStop(host.trace, process)
  {
    hide AllReleased;
    var trace := host.trace;
    DisablesOn(mid, trace, |before|);
    if process < host.processes { ProcessReleased(host, process); }
    forall j | 0 <= j < |trace| && trace[j].DisableKillSwitch? ensures StoppedBefore(trace, process, j) {
      assert forall n :: 0 <= n < |before| ==> before[n] == trace[n];
      assert StopProcess(process) in trace;
      var i :| 0 <= i < |trace| && trace[i] == StopProcess(process);
      assert Stage(trace[i]) == 3 && Stage(trace[j]) == 4;
    }
  }

  lemma RunsKeepStages(before: seq<Effect>, after: seq<Effect>)
    requires Runs(before, after) && StagesBetween(before, 0, 1)
    ensures StagesBetween(after, 0, 1)
  {
    assert forall i :: 0 <= i < |before| ==> after[i] == before[i];
  }

  /** `async with ConnectionService(...)`: one `start`, then `__aexit__`.  For every fault
      pattern all three references end empty, every process was stopped exactly once,
      every directory cleaned exactly once, every client closed at most once (exactly
      once if it can be closed), and the releases come in order. */
  method Session(conn: ConnectionService, profile: ServerProfile, autoFailover: bool, killswitch: bool,
                 all: seq<ServerProfile>, rounds: seq<Round>) returns (raised: Option<Error>, ghost body: Body)
    requires conn.Wired() && conn.engineSvc.engine == None && conn.processSvc.proc == None
    requires conn.host.outbound == None && StagesBetween(conn.host.trace, 0, 1)
    modifies conn, conn.host, conn.processSvc, conn.engineSvc
    ensures conn.engineSvc.engine == None && conn.processSvc.proc == None && conn.processSvc.runtimeDir == None
    ensures conn.cleaned && Ordered(conn.host.trace)
    ensures Bracketed(old(conn.events), conn.events, profile, raised)
    // The kill switch is never disabled before a stop of this session's process was attempted.
    ensures DisablesAfterStop(conn.host.trace, old(conn.host.processes))
    // What leaves: of a failed acquisition the exception of its last failing attempt, otherwise
    // what the loop raises, and without failover nothing.
    ensures AnyFault(conn.host.faults, |old(conn.host.trace)|, Needed(killswitch)) ==>
              raised.Some? && LastFault(conn.host.faults, |old(conn.host.trace)|, body.end, raised.value)
    ensures !AnyFault(conn.host.faults, |old(conn.host.trace)|, Needed(killswitch)) ==>
              && RanAs(body, conn.host.faults, profile, all, rounds, autoFailover && all != [], raised)
              && (!autoFailover || all == [] ==> raised.None?)
    ensures raised.Some? ==> Explained(raised.value, conn.host.faults, |old(conn.host.trace)|, body.end)
    ensures raised == Some(EmptyProfileId) ==> autoFailover && all != [] && "" in ProfileMap(profile, all)
    // What was attempted: the acquisitions, the loop and the releases.
    ensures ReachedExactly(conn.host.faults, |old(conn.host.trace)|, killswitch, body.reached)
    ensures |old(conn.host.trace)| <= body.from <= body.end <= |conn.host.trace|
    ensures conn.host.trace[..body.from] == old(conn.host.trace)
              + AcquireEffects(old(conn.host.dirs), old(conn.host.processes), old(conn.host.clients), profile, killswitch, body.reached)
    ensures body.reached < 8 ==> body.end == body.from
    ensures ClosedDown(conn.host.faults, conn.host.trace, Shown(old(conn.events), profile, killswitch, body), conn.events, raised, body,
                       conn.host.closable, old(conn.host.processes), old(conn.host.dirs), old(conn.host.clients), killswitch)
    ensures AllReleased(conn.host)
  {
    hide AllReleased, Once, Stage, RunLoop, ProfileMap, RanAs, Disables, DisablesAfterStop, Ordered, StagesBetween, AcquireEffects, ReachedExactly;
    hide Runs, Explained, AnyFault, Shown, Effects, Report, ReleasePlan, CleanedUp, RolledBack, RollbackEvents, CleanupEvents, Bracketed;
    hide Releases, Leftovers;
    ghost var before, process := conn.host.trace, conn.host.processes;
    raised, body := conn.Start(profile, autoFailover, killswitch, all, rounds);
    AllOrNot(conn.host.faults, |before|, killswitch, body.reached);
    if body.reached >= 8 {
      WhatLeaves(body, conn.host.faults, profile, all, rounds, autoFailover && all != [], raised);
    }
    ghost var trace := conn.host.trace;
    if raised.None? {
      assert trace[..body.end] == trace;
      RunsKeepStages(before, trace);
    }
    ghost var signals, enabled := conn.signalsRegistered, conn.killswitchEnabled;
    Exit(conn, raised);
    ghost var shown := Shown(old(conn.events), profile, killswitch, body);
    ghost var dir, client := old(conn.host.dirs), old(conn.host.clients);
    if raised.None? {
      AllAreLeft(body, killswitch, conn.host.closable, process, dir, client);
      ClosesNormally(conn.host.faults, trace, conn.host.trace, shown, conn.events, body,
                     Releases(body, true, conn.host.closable, process, dir, client, killswitch));
    } else {
      ghost var plan := Releases(body, body.tunnel.owned, conn.host.closable, process, dir, client, killswitch);
      ghost var errors := Report(plan, conn.host.faults, body.end);
      LeftoversAre(body, killswitch, conn.host.closable, errors, signals, enabled);
      ClosesAfterRollback(conn.host.faults, trace, conn.host.trace, shown, conn.events, body, plan,
                          Leftovers(body, killswitch, conn.host.closable, errors));
    }
    FirstAndLast(conn.host.faults, conn.host.trace, old(conn.events), conn.events, raised, body, conn.host.closable,
                 process, dir, client, profile, killswitch);
    StoppedFirst(before, trace, conn.host, process);
  }

  /** What has been shown when the body of `start` ends. */
  function Shown(before: seq<Event>, profile: ServerProfile, killswitch: bool, body: Body): seq<Event> {
    before + [Event.Started(profile.profileId)] + AcquiredEvents(killswitch, body.reached) + body.emitted
  }

  /** The releases that follow a body, `outbound` being whether the outbound is to be removed. */
  function Releases(body: Body, outbound: bool, closable: bool, process: nat, dir: nat, client: nat, killswitch: bool): Plan {
    ReleasePlan(body.signals > 0, outbound, if body.reached >= 5 then Some(client) else None, closable,
                body.reached >= 4, if body.reached >= 4 then Some(process) else None, if body.reached >= 4 then Some(dir) else None,
                killswitch && body.reached >= 7)
  }

  /** The releases that a cleanup finds to do after a rollback with these messages. */
  function Leftovers(body: Body, killswitch: bool, closable: bool, errors: seq<Step>): Plan {
    ReleasePlan(body.signals > 0 && Signals in errors, true, None, closable, true, None, None,
                killswitch && body.reached >= 7 && KillSwitch in errors)
  }

  /** What follows a body that had shown `before` and needs no rollback: one cleanup.  `trace` is
      all that was attempted, and `after` all that was shown. */
  ghost predicate CleanedUp(faults: nat -> bool, trace: seq<Effect>, before: seq<Event>, after: seq<Event>, body: Body, plan: Plan) {
    && body.end <= |trace| && trace == trace[..body.end] + Effects(plan)
    && after == before + CleanupEvents(Report(plan, faults, body.end))
  }

  /** What follows a body that raises: the rollback `plan`, and the cleanup of what that left. */
  ghost predicate RolledBack(faults: nat -> bool, trace: seq<Effect>, before: seq<Event>, after: seq<Event>, body: Body, plan: Plan, rest: Plan) {
    var errors, left := Report(plan, faults, body.end), Report(rest, faults, body.end + |Effects(plan)|);
    && body.end <= |trace| && trace == trace[..body.end] + Effects(plan) + Effects(rest)
    && after == before + RollbackEvents(body.reached >= 4, errors) + [ErrorEvent] + CleanupEvents(left)
  }

  ghost predicate ClosedDown(faults: nat -> bool, trace: seq<Effect>, before: seq<Event>, after: seq<Event>, raised: Option<Error>, body: Body,
                             closable: bool, process: nat, dir: nat, client: nat, killswitch: bool)
  {
    if raised.None? then
      CleanedUp(faults, trace, before, after, body, Releases(body, true, closable, process, dir, client, killswitch))
    else
      var plan := Releases(body, body.tunnel.owned, closable, process, dir, client, killswitch);
      RolledBack(faults, trace, before, after, body, plan, Leftovers(body, killswitch, closable, Report(plan, faults, body.end)))
  }

  /** The start is shown first, the end of the cleanup last and an exception in between. */
  predicate Bracketed(before: seq<Event>, after: seq<Event>, profile: ServerProfile, raised: Option<Error>) {
    && |before| < |after| && after[|before|] == Event.Started(profile.profileId) && after[|after| - 1] == CleanupDone
    && (raised.Some? ==> ErrorEvent in after[|before| + 1..|after| - 1])
  }

  lemma FirstAndLast(faults: nat -> bool, trace: seq<Effect>, before: seq<Event>, after: seq<Event>, raised: Option<Error>, body: Body,
                     closable: bool, process: nat, dir: nat, client: nat, profile: ServerProfile, killswitch: bool)
    requires ClosedDown(faults, trace, Shown(before, profile, killswitch, body), after, raised, body,
                        closable, process, dir, client, killswitch)
    ensures Bracketed(before, after, profile, raised)
  {
    hide Effects, Report, ReleasePlan, RollbackEvents, AcquiredEvents;
    if raised.Some? {
      var errors := Report(Releases(body, body.tunnel.owned, closable, process, dir, client, killswitch), faults, body.end);
      var k := |Shown(before, profile, killswitch, body) + RollbackEvents(body.reached >= 4, errors)|;
      assert after[k] == ErrorEvent && after[|before| + 1..|after| - 1][k - |before| - 1] == ErrorEvent;
    }
  }

  lemma ClosesNormally(faults: nat -> bool, ran: seq<Effect>, trace: seq<Effect>, before: seq<Event>, after: seq<Event>, body: Body, plan: Plan)
    requires body.end == |ran|
    requires trace == ran + Effects(plan) && after == before + CleanupEvents(Report(plan, faults, |ran|))
    ensures CleanedUp(faults, trace, before, after, body, plan)
  {
    hide Effects, Report, CleanupEvents;
    assert trace[..body.end] == ran;
  }

  lemma ClosesAfterRollback(faults: nat -> bool, ran: seq<Effect>, trace: seq<Effect>, before: seq<Event>, after: seq<Event>,
                            body: Body, plan: Plan, rest: Plan)
    requires body.end <= |ran| && ran == ran[..body.end] + Effects(plan) && trace == ran + Effects(rest)
    requires after == before + RollbackEvents(body.reached >= 4, Report(plan, faults, body.end)) + [ErrorEvent]
                      + CleanupEvents(Report(rest, faults, |ran|))
    ensures RolledBack(faults, trace, before, after, body, plan, rest)
  {
    hide Effects, Report, RollbackEvents, CleanupEvents;
    Appended(ran, trace, body.end, Effects(plan), Effects(rest));
  }

  lemma AllAreLeft(body: Body, killswitch: bool, closable: bool, process: nat, dir: nat, client: nat)
    requires body.reached == 8
    ensures ReleasePlan(body.signals > 0, true, Some(client), closable, true, Some(process), Some(dir), killswitch) ==
            Releases(body, true, closable, process, dir, client, killswitch)
  {
  }

  lemma LeftoversAre(body: Body, killswitch: bool, closable: bool, errors: seq<Step>, signals: nat, enabled: bool)
    requires enabled == (killswitch && body.reached >= 7 && KillSwitch in errors)
    requires signals == if Signals in errors then body.signals else 0
    ensures ReleasePlan(signals > 0, true, None, closable, true, None, None, enabled) == Leftovers(body, killswitch, closable, errors)
  {
  }

  lemma Appended(ran: seq<Effect>, trace: seq<Effect>, end: nat, more: seq<Effect>, last: seq<Effect>)
    requires end <= |ran| && ran == ran[..end] + more && trace == ran + last
    ensures end <= |trace| && |ran| == end + |more| && trace == trace[..end] + more + last
  {
    assert trace[..end] == ran[..end];
  }

  /** `__aexit__`: an ERROR event for an exception, then `cleanup`. */
  method Exit(conn: ConnectionService, raised: Option<Error>)
    requires conn.Valid() && !conn.cleaned
    requires StagesBetween(conn.host.trace, 0, 1) ||
             (Ordered(conn.host.trace) && conn.engineSvc.engine == None && conn.processSvc.proc == None)
    modifies conn, conn.host`trace, conn.host`outbound, conn.host`uncleaned, conn.host`unstopped, conn.host`unclosed
    modifies conn.processSvc, conn.engineSvc
    ensures conn.Valid() && conn.cleaned && AllReleased(conn.host)
    ensures conn.engineSvc.engine == None && conn.processSvc.proc == None && conn.processSvc.runtimeDir == None
    ensures old(conn.host.trace) <= conn.host.trace && Ordered(conn.host.trace)
    ensures Disables(conn.host.trace, |old(conn.host.trace)|) ==> old(conn.killswitchEnabled)
    ensures var plan := ReleasePlan(old(conn.signalsRegistered) > 0, true, old(conn.engineSvc.engine), conn.host.closable, true,
                                    old(conn.processSvc.proc), old(conn.processSvc.runtimeDir), old(conn.killswitchEnabled));
            var errors := Report(plan, conn.host.faults, |old(conn.host.trace)|);
            && conn.host.trace == old(conn.host.trace) + Effects(plan)
            && conn.events == old(conn.events) + (if raised.Some? then [ErrorEvent] else [])
                              + CleanupEvents(errors)
  {
    hide Once, Stage, Effects, Report, ReleasePlan, Ordered, StagesBetween, Disables, AllReleased;
    if raised.Some? { conn.Emit(ErrorEvent); }
    ghost var trace := conn.host.trace;
    ghost var signals, engine, proc, dir, ks :=
      conn.signalsRegistered > 0, conn.engineSvc.engine, conn.processSvc.proc, conn.processSvc.runtimeDir, conn.killswitchEnabled;
    var errors;
    ghost var plan;
    errors, plan := conn.Cleanup();
    ReleasePlanOrdered(trace, signals, true, engine, conn.host.closable, true, proc, dir, ks);
    PlanDisables(trace, signals, true, engine, conn.host.closable, true, proc, dir, ks);
    BooksEmpty(conn.host);
  }

  /** Every process was stopped exactly once, every directory cleaned exactly once and every
      client closed at most once, exactly once if it can be closed. */
  ghost predicate AllReleased(host: Host)
    reads host
  {
    var made := multiset(host.trace);
    && (forall id: nat :: made[StopProcess(id)] == if id < host.processes then 1 else 0)
    && (forall id: nat :: made[CleanDir(id)] == if id < host.dirs then 1 else 0)
    && (forall id: nat :: made[CloseClient(id)] <= 1)
    && (host.closable ==> forall id: nat :: made[CloseClient(id)] == if id < host.clients then 1 else 0)
  }

  /** What the books of the host say when nothing but unclosable clients is pending. */
  lemma BooksEmpty(host: Host)
    requires host.Valid() && host.unstopped == {} && host.uncleaned == {} && (host.closable ==> host.unclosed == {})
    ensures AllReleased(host)
  {
    var made := multiset(host.trace);
    assert forall id: nat :: made[StopProcess(id)] == made[Release(Process, id)];
    assert forall id: nat :: made[CleanDir(id)] == made[Release(Dir, id)];
    assert forall id: nat :: made[CloseClient(id)] == made[Release(Client, id)];
  }

  lemma ProcessReleased(host: Host, process: nat)
    requires AllReleased(host) && process < host.processes
    ensures multiset(host.trace)[StopProcess(process)] > 0
  {
  }

  lemma EmptyPlan(faults: nat -> bool, at: nat)
    ensures Effects([]) == [] && Report([], faults, at) == []
  {
  }
}
