/** The resources behind one connection and the two services that own them:
    orchestrator/bimarz/services/process.py and services/engine.py.

    `Host` stands for everything outside the orchestrator.  Attempt number n fails
    exactly when `faults(n)`: a run for every fault pattern is a run for every
    function `faults`. */
module Services {
  import opened Text
  import opened Health

  datatype Effect =
    | FindBinary | CreateDir(dir: nat) | WriteConfig | StartProcess(process: nat)
    | OpenClient(client: nat) | AddOutbound(profile: ServerProfile) | RemoveOutbound | CloseClient(client: nat)
    | StopProcess(process: nat) | CleanDir(dir: nat)
    | RegisterSignal | UnregisterSignals
    | EnableKillSwitch | StartWatcher | StopWatcher | DisableKillSwitch
    | CheckHealth

  /** A Python exception, named by the attempt that raised it. */
  datatype Error = Fault(at: nat) | NotConnected | EmptyProfileId

  datatype Result<+T> = Ok(value: T) | Err(error: Error)

  // ---- exactly-once accounting ----

  datatype Kind = Process | Dir | Client

  /** The one effect that releases a resource. */
  function Release(kind: Kind, id: nat): Effect {
    match kind case Process => StopProcess(id) case Dir => CleanDir(id) case Client => CloseClient(id)
  }

  function ReleaseIf(kind: Kind, held: Option<nat>): seq<Effect> {
    match held case None => [] case Some(id) => [Release(kind, id)]
  }

  /** Every id acquired so far has been released exactly once, except the pending ones. */
  ghost predicate Once(trace: seq<Effect>, kind: Kind, acquired: nat, pending: set<nat>) {
    && (forall id <- pending :: id < acquired)
    && (forall id: nat :: multiset(trace)[Release(kind, id)] == if id < acquired && id !in pending then 1 else 0)
  }

  class Host {
    const faults: nat -> bool
    const closable: bool             // whether the client object has a close method

    var trace: seq<Effect>
    var outbound: Option<ServerProfile>   // what xray-core has under the active tag
    var processes: nat
    var dirs: nat
    var clients: nat
    ghost var unstopped: set<nat>    // processes acquired and not yet asked to stop
    ghost var uncleaned: set<nat>
    ghost var unclosed: set<nat>

    constructor (faults: nat -> bool, closable: bool)
      ensures Valid() && trace == [] && outbound == None
      ensures unstopped == {} && uncleaned == {} && unclosed == {}
      ensures this.faults == faults && this.closable == closable
    {
      this.faults, this.closable := faults, closable;
      trace, outbound, processes, dirs, clients := [], None, 0, 0, 0;
      unstopped, uncleaned, unclosed := {}, {}, {};
    }

    ghost predicate Valid()
      reads this
    {
      && Once(trace, Process, processes, unstopped)
      && Once(trace, Dir, dirs, uncleaned)
      && Once(trace, Client, clients, unclosed)
    }

    predicate Succeeds()
      reads this
    {
      !faults(|trace|)
    }

    /** An attempt with no effect on the books. */
    method Attempt(e: Effect) returns (ok: bool)
      requires Valid() && !e.StopProcess? && !e.CleanDir? && !e.CloseClient?
      modifies `trace
      ensures Valid() && trace == old(trace) + [e] && ok == old(Succeeds())
    {
      ok := Succeeds();
      trace := trace + [e];
    }

    method CreateDirectory() returns (r: Option<nat>)
      requires Valid()
      modifies `trace, `dirs, `uncleaned
      ensures Valid() && trace == old(trace) + [CreateDir(old(dirs))]
      ensures r == if old(Succeeds()) then Some(old(dirs)) else None
      ensures uncleaned == if r.Some? then old(uncleaned) + {r.value} else old(uncleaned)
    {
      r := if Succeeds() then Some(dirs) else None;
      trace := trace + [CreateDir(dirs)];
      if r.Some? { uncleaned, dirs := uncleaned + {dirs}, dirs + 1; }
    }

    method CleanDirectory(dir: nat) returns (ok: bool)
      requires Valid() && dir in uncleaned
      modifies `trace, `uncleaned
      ensures Valid() && trace == old(trace) + [CleanDir(dir)] && ok == old(Succeeds())
      ensures uncleaned == old(uncleaned) - {dir}
    {
      ok := Succeeds();
      trace, uncleaned := trace + [CleanDir(dir)], uncleaned - {dir};
    }

    method Launch() returns (r: Option<nat>)
      requires Valid()
      modifies `trace, `processes, `unstopped
      ensures Valid() && trace == old(trace) + [StartProcess(old(processes))]
      ensures r == if old(Succeeds()) then Some(old(processes)) else None
      ensures processes == old(processes) + if r.Some? then 1 else 0
      ensures unstopped == if r.Some? then old(unstopped) + {r.value} else old(unstopped)
    {
      r := if Succeeds() then Some(processes) else None;
      trace := trace + [StartProcess(processes)];
      if r.Some? { unstopped, processes := unstopped + {processes}, processes + 1; }
    }

    method Terminate(process: nat) returns (ok: bool)
      requires Valid() && process in unstopped
      modifies `trace, `unstopped
      ensures Valid() && trace == old(trace) + [StopProcess(process)] && ok == old(Succeeds())
      ensures unstopped == old(unstopped) - {process}
    {
      ok := Succeeds();
      trace, unstopped := trace + [StopProcess(process)], unstopped - {process};
    }

    method Connect() returns (r: Option<nat>)
      requires Valid()
      modifies `trace, `clients, `unclosed
      ensures Valid() && trace == old(trace) + [OpenClient(old(clients))]
      ensures r == if old(Succeeds()) then Some(old(clients)) else None
      ensures unclosed == if r.Some? then old(unclosed) + {r.value} else old(unclosed)
    {
      r := if Succeeds() then Some(clients) else None;
      trace := trace + [OpenClient(clients)];
      if r.Some? { unclosed, clients := unclosed + {clients}, clients + 1; }
    }

    method Disconnect(client: nat) returns (ok: bool)
      requires Valid() && client in unclosed
      modifies `trace, `unclosed
      ensures Valid() && trace == old(trace) + [CloseClient(client)] && ok == old(Succeeds())
      ensures unclosed == old(unclosed) - {client}
    {
      ok := Succeeds();
      trace, unclosed := trace + [CloseClient(client)], unclosed - {client};
    }

    /** A failed RPC has no effect. */
    method RpcAdd(profile: ServerProfile) returns (ok: bool)
      requires Valid()
      modifies `trace, `outbound
      ensures Valid() && trace == old(trace) + [AddOutbound(profile)] && ok == old(Succeeds())
      ensures outbound == if ok then Some(profile) else old(outbound)
    {
      ok := Succeeds();
      trace := trace + [AddOutbound(profile)];
      if ok { outbound := Some(profile); }
    }

    method RpcRemove() returns (ok: bool)
      requires Valid()
      modifies `trace, `outbound
      ensures Valid() && trace == old(trace) + [RemoveOutbound] && ok == old(Succeeds())
      ensures outbound == if ok then None else old(outbound)
    {
      ok := Succeeds();
      trace := trace + [RemoveOutbound];
      if ok { outbound := None; }
    }
  }

  /** Some of `count` attempts from number `from` on fails. */
  ghost predicate AnyFault(faults: nat -> bool, from: nat, count: nat) {
    exists n: nat :: from <= n < from + count && faults(n)
  }

  /** Of `count` attempts in a row the first k succeed and the next, if any, fails. */
  ghost predicate FailsFirstAt(faults: nat -> bool, from: nat, count: nat, k: nat) {
    && k <= count
    && (forall n: nat :: from <= n < from + k ==> !faults(n))
    && (k < count ==> faults(from + k))
  }

  /** The exception is that of the last of the attempts from number `from` to `to` that failed. */
  ghost predicate LastFault(faults: nat -> bool, from: nat, to: nat, error: Error) {
    && error.Fault? && from <= error.at < to && faults(error.at)
    && forall n: nat :: error.at < n < to ==> !faults(n)
  }

  lemma FailsFirstContinues(faults: nat -> bool, from: nat, count: nat, k: nat, more: nat, j: nat)
    requires FailsFirstAt(faults, from, count, k)
    requires k == count ==> FailsFirstAt(faults, from + count, more, j)
    ensures FailsFirstAt(faults, from, count + more, if k < count then k else count + j)
  {
  }

  // ---- services/process.py ----

  class ProcessService {
    const host: Host
    var proc: Option<nat>
    var runtimeDir: Option<nat>

    constructor (host: Host)
      ensures this.host == host && proc == None && runtimeDir == None
    {
      this.host, proc, runtimeDir := host, None, None;
    }

    /** The service holds exactly the process and the directory still to be released. */
    ghost predicate Valid()
      reads this, host
    {
      && host.Valid()
      && host.unstopped == (if proc.Some? then {proc.value} else {})
      && host.uncleaned == (if runtimeDir.Some? then {runtimeDir.value} else {})
      && (proc.Some? <==> runtimeDir.Some?)
    }

    /** Each acquisition is attempted once, in order, up to the first that fails; from the
        third on a failure first gives the directory back.  `reached` counts the successes. */
    method Start() returns (r: Result<nat>, ghost reached: nat)
      requires Valid()
      modifies this, host`trace, host`dirs, host`uncleaned, host`processes, host`unstopped
      ensures Valid() && (r.Ok? ==> proc == Some(r.value)) && (r.Err? ==> proc == None)
      ensures old(proc).Some? ==> r == Ok(old(proc).value) && host.trace == old(host.trace) && runtimeDir == old(runtimeDir)
      ensures old(proc).None? ==>
                && reached <= 4 && FailsFirstAt(host.faults, |old(host.trace)|, 4, reached) && (r.Ok? <==> reached == 4)
                && host.trace == old(host.trace) + StartEffects(old(host.dirs), old(host.processes), reached)
                && (r.Ok? ==> r.value == old(host.processes) && runtimeDir == Some(old(host.dirs)))
                && host.processes == old(host.processes) + if r.Ok? then 1 else 0
      ensures r.Err? ==> LastFault(host.faults, |old(host.trace)|, |host.trace|, r.error)
    {
      hide Once;
      reached := 0;
      if proc.Some? { return Ok(proc.value), 0; }
      var ok := host.Attempt(FindBinary);
      if !ok { return Err(Fault(|host.trace| - 1)), 0; }
      var dir := host.CreateDirectory();
      if dir.None? { return Err(Fault(|host.trace| - 1)), 1; }
      runtimeDir := dir;
      r, reached := Launch();
    }

    /** The `try` block of `start`, with its handler. */
    method Launch() returns (r: Result<nat>, ghost reached: nat)
      requires host.Valid() && proc == None && host.unstopped == {}
      requires runtimeDir.Some? && host.uncleaned == {runtimeDir.value}
      requires |host.trace| >= 2
      modifies this, host`trace, host`uncleaned, host`processes, host`unstopped
      ensures Valid() && (r.Ok? ==> proc == Some(r.value)) && (r.Err? ==> proc == None)
      ensures 2 <= reached <= 4 && (r.Ok? <==> reached == 4)
      ensures FailsFirstAt(host.faults, |old(host.trace)|, 2, reached - 2)
      ensures host.trace == old(host.trace) + LaunchEffects(old(runtimeDir).value, old(host.processes), reached)
      ensures r.Ok? ==> r.value == old(host.processes) && runtimeDir == old(runtimeDir)
      ensures host.processes == old(host.processes) + if r.Ok? then 1 else 0
      ensures r.Err? ==> LastFault(host.faults, |old(host.trace)|, |host.trace|, r.error)
    {
      hide Once;
      reached := 2;
      var ok := host.Attempt(WriteConfig);
      if ok {
        reached := 3;
        var launched := host.Launch();
        if launched.Some? {
          proc := launched;
          return Ok(launched.value), 4;
        }
      }
      // except Exception:
      var error := Fault(|host.trace| - 1);
      var cleanup := CleanupRuntime();
      r := Err(if cleanup.Some? then cleanup.value else error);
    }

    /** Null before release, both for the process and for the directory. */
    method Stop() returns (raised: Option<Error>)
      requires Valid()
      modifies this, host`trace, host`uncleaned, host`unstopped
      ensures Valid() && proc == None && runtimeDir == None
      ensures host.trace == old(host.trace) + StopEffects(old(proc), old(runtimeDir))
      ensures raised.Some? <==> AnyFault(host.faults, |old(host.trace)|, |host.trace| - |old(host.trace)|)
    {
      hide Once;
      raised := None;
      var p := proc;
      proc := None;
      if p.Some? {
        var ok := host.Terminate(p.value);
        if !ok { raised := Some(Fault(|host.trace| - 1)); assert host.faults(|host.trace| - 1); }
      }
      // finally:
      var cleanup := CleanupRuntime();
      if cleanup.Some? { raised := cleanup; }
    }

    method CleanupRuntime() returns (raised: Option<Error>)
      requires host.Valid() && host.uncleaned == (if runtimeDir.Some? then {runtimeDir.value} else {})
      modifies `runtimeDir, host`trace, host`uncleaned
      ensures host.Valid() && runtimeDir == None && host.uncleaned == {}
      ensures host.trace == old(host.trace) + ReleaseIf(Dir, old(runtimeDir))
      ensures raised == if old(runtimeDir).Some? && !old(host.Succeeds()) then Some(Fault(|old(host.trace)|)) else None
    {
      hide Once;
      var dir := runtimeDir;
      runtimeDir := None;
      if dir.Some? {
        var ok := host.CleanDirectory(dir.value);
        if !ok { return Some(Fault(|host.trace| - 1)); }
      }
      raised := None;
    }
  }

  /** What `start` attempts when `reached` of its four acquisitions succeed. */
  function StartEffects(dir: nat, process: nat, reached: nat): seq<Effect> {
    [FindBinary] + (if reached >= 1 then [CreateDir(dir)] else []) + (if reached >= 2 then LaunchEffects(dir, process, reached) else [])
  }

  function LaunchEffects(dir: nat, process: nat, reached: nat): seq<Effect> {
    if reached >= 4 then [WriteConfig, StartProcess(process)]
    else if reached == 3 then [WriteConfig, StartProcess(process), CleanDir(dir)]
    else [WriteConfig, CleanDir(dir)]
  }

  function StopEffects(proc: Option<nat>, dir: Option<nat>): seq<Effect> {
    ReleaseIf(Process, proc) + ReleaseIf(Dir, dir)
  }

  // ---- services/engine.py ----

  class EngineService {
    const host: Host
    var engine: Option<nat>

    constructor (host: Host)
      ensures this.host == host && engine == None
    {
      this.host, engine := host, None;
    }

    /** The held client is not closed yet; a closable client that is not held is. */
    ghost predicate Valid()
      reads this, host
    {
      && host.Valid()
      && (engine.Some? ==> engine.value in host.unclosed)
      && (host.closable ==> host.unclosed == (if engine.Some? then {engine.value} else {}))
    }

    method Connect() returns (r: Result<nat>)
      requires Valid()
      modifies this, host`trace, host`clients, host`unclosed
      ensures Valid() && (r.Ok? ==> engine == Some(r.value)) && (r.Err? ==> engine == None)
      ensures old(engine).Some? ==> r == Ok(old(engine).value) && host.trace == old(host.trace)
      ensures old(engine).None? ==>
                && host.trace == old(host.trace) + [OpenClient(old(host.clients))]
                && r == if old(host.Succeeds()) then Ok(old(host.clients)) else Err(Fault(|old(host.trace)|))
    {
      hide Once;
      if engine.Some? { return Ok(engine.value); }
      var client := host.Connect();
      if client.None? { return Err(Fault(|host.trace| - 1)); }
      engine := client;
      r := Ok(client.value);
    }

    method AddOutbound(profile: ServerProfile) returns (raised: Option<Error>)
      requires Valid()
      modifies host`trace, host`outbound
      ensures Valid()
      ensures engine == None ==> raised == Some(NotConnected) && host.trace == old(host.trace) && host.outbound == old(host.outbound)
      ensures engine.Some? ==>
                && host.trace == old(host.trace) + [Effect.AddOutbound(profile)]
                && raised == (if old(host.Succeeds()) then None else Some(Fault(|old(host.trace)|)))
                && host.outbound == if raised.None? then Some(profile) else old(host.outbound)
    {
      hide Once;
      if engine.None? { return Some(NotConnected); }
      var ok := host.RpcAdd(profile);
      raised := if ok then None else Some(Fault(|host.trace| - 1));
    }

    /** `remove_outbound(raise_on_error=True)`: silent without a client. */
    method RemoveOutbound() returns (raised: Option<Error>)
      requires Valid()
      modifies host`trace, host`outbound
      ensures Valid()
      ensures host.trace == old(host.trace) + if engine.Some? then [Effect.RemoveOutbound] else []
      ensures raised == if engine.Some? && !old(host.Succeeds()) then Some(Fault(|old(host.trace)|)) else None
      ensures raised.Some? <==> AnyFault(host.faults, |old(host.trace)|, |host.trace| - |old(host.trace)|)
      ensures host.outbound == if engine.Some? && raised.None? then None else old(host.outbound)
    {
      hide Once;
      if engine.None? { return None; }
      var ok := host.RpcRemove();
      raised := if ok then None else Some(Fault(|host.trace| - 1));
    }

    /** Null before release: ownership ends even when the client's close raises. */
    method Close() returns (raised: Option<Error>)
      requires Valid()
      modifies this, host`trace, host`unclosed
      ensures Valid() && engine == None
      ensures host.trace == old(host.trace) + CloseEffects(old(engine), host.closable)
      ensures raised.Some? <==> AnyFault(host.faults, |old(host.trace)|, |host.trace| - |old(host.trace)|)
    {
      hide Once;
      var client := engine;
      engine := None;
      if client.None? || !host.closable { return None; }
      var ok := host.Disconnect(client.value);
      raised := if ok then None else Some(Fault(|host.trace| - 1));
    }
  }

  function CloseEffects(engine: Option<nat>, closable: bool): seq<Effect> {
    if closable then ReleaseIf(Client, engine) else []
  }
}
