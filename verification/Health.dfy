/** Parallel health checks: engine-core/src/healthcheck.rs and `check_all_profiles` in
    orchestrator/bimarz/failover.py.  Tasks finish in any order; the result map does not
    depend on it. */
module Health {
  import opened Text

  datatype ServerProfile = ServerProfile(profileId: string, remark: string, address: string, port: nat)

  datatype HealthCheckResult = HealthCheckResult(
    profileId: string,
    reachable: bool,
    latencyMs: Option<real>,
    errorMessage: Option<string>)

  /** What one TCP connection attempt meets. */
  datatype Probe = Connected(elapsedMs: real) | Refused(reason: string) | TimedOut

  /** The network during one batch; None for a task that panics. */
  type Network = ServerProfile -> Option<Probe>

  /** `check_tcp_reachable`: reachable, with a latency, exactly when a connection came about;
      otherwise an error message says why. */
  function CheckTcpReachable(profile: ServerProfile, probe: Probe): (r: HealthCheckResult)
    ensures r.profileId == profile.profileId && (r.reachable <==> probe.Connected?)
    ensures r.latencyMs.Some? <==> r.reachable
    ensures r.errorMessage.Some? <==> !r.reachable
    ensures probe.Connected? ==> r.latencyMs == Some(probe.elapsedMs)
    ensures probe.Refused? ==> r.errorMessage == Some(probe.reason)
  {
    match probe
    case Connected(elapsed) => HealthCheckResult(profile.profileId, true, Some(elapsed), None)
    case Refused(reason) => HealthCheckResult(profile.profileId, false, None, Some(reason))
    case TimedOut => HealthCheckResult(profile.profileId, false, None, Some("connection timed out after 5000ms"))
  }

  /** The answers of the tasks that complete, in the order of the targets. */
  function Answers(profiles: seq<ServerProfile>, net: Network): seq<HealthCheckResult> {
    if profiles == [] then []
    else
      var rest := Answers(profiles[1..], net);
      match net(profiles[0])
      case None => rest
      case Some(probe) => [CheckTcpReachable(profiles[0], probe)] + rest
  }

  lemma {:induction false} AnswersAppend(a: seq<ServerProfile>, b: seq<ServerProfile>, net: Network)
    ensures Answers(a + b, net) == Answers(a, net) + Answers(b, net)
  {
    if a == [] {
      assert a + b == b;
    } else {
      assert (a + b)[0] == a[0] && (a + b)[1..] == a[1..] + b;
      AnswersAppend(a[1..], b, net);
    }
  }

  lemma TakeOut(profiles: seq<ServerProfile>, j: nat, net: Network)
    requires j < |profiles|
    ensures multiset(Answers(profiles, net)) ==
            multiset(Answers([profiles[j]], net)) + multiset(Answers(profiles[..j] + profiles[j + 1..], net))
  {
    hide Answers;
    var done, before, after := [profiles[j]], profiles[..j], profiles[j + 1..];
    assert profiles == before + (done + after);
    AnswersAppend(before, done + after, net);
    AnswersAppend(done, after, net);
    AnswersAppend(before, after, net);
  }

  /** `check_many`: all tasks are spawned, then joined in completion order. */
  method CheckMany(profiles: seq<ServerProfile>, net: Network) returns (results: seq<HealthCheckResult>)
    ensures multiset(results) == multiset(Answers(profiles, net))
  {
    var joinSet: seq<ServerProfile> := [];
    for i := 0 to |profiles|
      invariant joinSet == profiles[..i]
    {
      joinSet := joinSet + [profiles[i]];
    }
    assert joinSet == profiles;
    results := [];
    while joinSet != []
      invariant multiset(results) + multiset(Answers(joinSet, net)) == multiset(Answers(profiles, net))
      decreases |joinSet|
    {
      var j: nat :| j < |joinSet|;   // whichever task finishes next
      var done := joinSet[j];
      TakeOut(joinSet, j, net);
      assert [done][1..] == [];
      joinSet := joinSet[..j] + joinSet[j + 1..];
      if net(done).Some? {
        results := results + [CheckTcpReachable(done, net(done).value)];
      }
    }
  }

  ghost predicate DistinctIds(profiles: seq<ServerProfile>) {
    forall i, j :: 0 <= i < j < |profiles| ==> profiles[i].profileId != profiles[j].profileId
  }

  /** The map a batch must produce: every completed answer under its own id. */
  ghost predicate IsResultMap(profiles: seq<ServerProfile>, net: Network, results: map<string, HealthCheckResult>) {
    && (forall id <- results :: exists p :: p in profiles && p.profileId == id)
    && (forall p <- profiles :: p.profileId in results <==> net(p).Some?)
    && (forall p <- profiles :: net(p).Some? ==> results[p.profileId] == CheckTcpReachable(p, net(p).value))
  }

  lemma {:induction false} AnswersMembers(profiles: seq<ServerProfile>, net: Network, r: HealthCheckResult)
    ensures r in Answers(profiles, net) <==> exists p :: p in profiles && net(p).Some? && r == CheckTcpReachable(p, net(p).value)
  {
    if profiles != [] {
      AnswersMembers(profiles[1..], net, r);
      assert profiles == [profiles[0]] + profiles[1..];
    }
  }

  /** When no task panics every target is answered, once and in its place. */
  lemma {:induction false} AllAnswer(profiles: seq<ServerProfile>, net: Network)
    requires forall p <- profiles :: net(p).Some?
    ensures |Answers(profiles, net)| == |profiles|
    ensures forall i :: 0 <= i < |profiles| ==> Answers(profiles, net)[i] == CheckTcpReachable(profiles[i], net(profiles[i]).value)
  {
    if profiles != [] {
      AllAnswer(profiles[1..], net);
      assert profiles == [profiles[0]] + profiles[1..];
    }
  }

  /** `check_all_profiles`: the dictionary comprehends whatever order came back. */
  method CheckAllProfiles(profiles: seq<ServerProfile>, net: Network) returns (results: map<string, HealthCheckResult>)
    ensures forall id <- results :: results[id].profileId == id
    ensures forall id <- results :: exists p :: p in profiles && p.profileId == id
    ensures DistinctIds(profiles) ==> IsResultMap(profiles, net, results)
  {
    results := map[];
    if profiles == [] { return; }
    var raw := CheckMany(profiles, net);
    for i := 0 to |raw|
      invariant forall id <- results :: results[id].profileId == id && results[id] in raw[..i]
      invariant forall r <- raw[..i] :: r.profileId in results
    {
      results := results[raw[i].profileId := raw[i]];
    }
    assert raw[..|raw|] == raw;
    RawMembers(profiles, net, raw);
    hide Answers;
    if DistinctIds(profiles) { ResultsAreDetermined(profiles, net, raw, results); }
  }

  lemma RawMembers(profiles: seq<ServerProfile>, net: Network, raw: seq<HealthCheckResult>)
    requires multiset(raw) == multiset(Answers(profiles, net))
    ensures forall r: HealthCheckResult ::
              r in raw <==> exists p :: p in profiles && net(p).Some? && r == CheckTcpReachable(p, net(p).value)
  {
    forall r: HealthCheckResult
      ensures r in raw <==> exists p :: p in profiles && net(p).Some? && r == CheckTcpReachable(p, net(p).value)
    {
      assert r in raw <==> r in multiset(raw);
      assert r in Answers(profiles, net) <==> r in multiset(Answers(profiles, net));
      AnswersMembers(profiles, net, r);
    }
  }

  lemma ResultsAreDetermined(profiles: seq<ServerProfile>, net: Network, raw: seq<HealthCheckResult>,
                             results: map<string, HealthCheckResult>)
    requires DistinctIds(profiles)
    requires forall r: HealthCheckResult ::
               r in raw <==> exists p :: p in profiles && net(p).Some? && r == CheckTcpReachable(p, net(p).value)
    requires forall id <- results :: results[id].profileId == id && results[id] in raw
    requires forall r <- raw :: r.profileId in results
    ensures IsResultMap(profiles, net, results)
  {
    forall p <- profiles
      ensures p.profileId in results <==> net(p).Some?
      ensures net(p).Some? ==> results[p.profileId] == CheckTcpReachable(p, net(p).value)
    {
      if net(p).Some? {
        assert CheckTcpReachable(p, net(p).value) in raw;
      }
      if p.profileId in results {
        var q :| q in profiles && net(q).Some? && results[p.profileId] == CheckTcpReachable(q, net(q).value);
        assert q.profileId == p.profileId;
        assert q == p;
      }
    }
  }

  /** So two batches over the same targets and network agree, whatever the orders. */
  lemma CompletionOrderIrrelevant(profiles: seq<ServerProfile>, net: Network, a: map<string, HealthCheckResult>,
                                  b: map<string, HealthCheckResult>)
    requires IsResultMap(profiles, net, a) && IsResultMap(profiles, net, b)
    ensures a == b
  {
    assert a.Keys == b.Keys by {
      forall id ensures id in a <==> id in b {
        if id in a { var p :| p in profiles && p.profileId == id; }
        if id in b { var p :| p in profiles && p.profileId == id; }
      }
    }
    forall id <- a ensures a[id] == b[id] {
      var p :| p in profiles && p.profileId == id;
    }
  }
}
