/** The failover rounds of the GUI worker
    (orchestrator/bimarz/gui/connection_worker.py:312-473): unlike the command line, a
    failed switch does not end the loop, so a later round must be able to heal it. */
module GuiWorker {
  import opened Text
  import opened Health
  import opened Failover
  import opened Services
  import opened TunnelSwitch
  import opened FailoverRun
  import opened Connection

  /** The worker between rounds: `_profile`, the failover record with its active id, the outbound. */
  datatype State = State(current: ServerProfile, active: string, answers: seq<bool>, events: seq<FailoverEvent>, tunnel: Tunnel)

  /** Record, worker and xray-core name one profile, and the flag says whether it is installed. */
  predicate InAgreement(s: State) {
    s.active == s.current.profileId && Agrees(s.tunnel, s.current)
  }

  datatype Checked = Checked(after: State, at: nat, raised: bool)

  /** What one iteration meets; the list of iterations ends at the stop request. */
  datatype Iteration = Iteration(net: Network, watcherDied: bool)

  const GUI_REASON := "3 consecutive failures"

  /** `_async_failover_check` from attempt `at` on. */
  ghost function RunCheck(table: Table, net: Network, faults: nat -> bool, at: nat, s: State): Checked
    requires IsTable(table)
  {
    if table == map[] then Checked(s, at, false)
    else if faults(at) || net(s.current).None? then Checked(s, at + 1, true)
    else
      var heard := Recorded(s, CheckTcpReachable(s.current, net(s.current).value));
      if UnreachableSuffix(heard.answers) < THRESHOLD then Checked(heard, at + 1, false)
      else RunFailing(table, net, faults, at + 1, heard)
  }

  /** The failover record ignores an answer that is not the active profile's. */
  function Recorded(s: State, result: HealthCheckResult): State {
    if result.profileId == s.active then s.(answers := s.answers + [result.reachable]) else s
  }

  /** Its second half, when the threshold is reached. */
  ghost function RunFailing(table: Table, net: Network, faults: nat -> bool, at: nat, s: State): Checked
    requires IsTable(table)
  {
    if faults(at) then Checked(s, at + 1, true)
    else match Best(Results(table, net).Values, s.active)
      case None => Checked(s, at + 1, false)
      case Some(id) =>
        BestIsKnown(Results(table, net), s.active);
        if id == s.current.profileId then Checked(s, at + 1, false)
        else RunGuiSwitch(table, faults, at + 1, s, id)
  }

  function RunGuiSwitch(table: Table, faults: nat -> bool, at: nat, s: State, id: string): Checked
    requires IsTable(table) && id in table
  {
    var (tunnel, switched) := Switch(s.tunnel, s.current, table[id], id != "", faults, at);
    var next := at + SwitchLength(s.tunnel, id != "", faults, at);
    if switched then
      Checked(State(table[id], id, [], s.events + [FailoverEvent(s.active, id, GUI_REASON)], tunnel), next, false)
    else Checked(s.(tunnel := tunnel), next, false)
  }

  /** The loop: an exception of a check is logged and the loop goes on; the death of the
      kill-switch watcher is raised. */
  ghost function RunWorker(table: Table, iterations: seq<Iteration>, faults: nat -> bool, at: nat, s: State): Checked
    requires IsTable(table)
  {
    if iterations == [] then Checked(s, at, false)
    else if iterations[0].watcherDied then Checked(s, at, true)
    else
      var c := RunCheck(table, iterations[0].net, faults, at, s);
      RunWorker(table, iterations[1..], faults, c.at, c.after)
  }

  // ---- what every run keeps ----

  lemma CheckAgrees(table: Table, net: Network, faults: nat -> bool, at: nat, s: State)
    requires IsTable(table) && "" !in table && InAgreement(s)
    ensures InAgreement(RunCheck(table, net, faults, at, s).after)
  {
    hide Results, UnreachableSuffix;
    var pick := Best(Results(table, net).Values, s.active);
    if pick.Some? {
      BestIsKnown(Results(table, net), s.active);
      SwitchAgreesUnless(s.tunnel, s.current, table[pick.value], true, faults, at + 2);
    }
  }

  lemma {:induction false} RunAgrees(table: Table, iterations: seq<Iteration>, faults: nat -> bool, at: nat, s: State)
    requires IsTable(table) && "" !in table && InAgreement(s)
    ensures InAgreement(RunWorker(table, iterations, faults, at, s).after)
    decreases |iterations|
  {
    hide RunCheck, InAgreement;
    if iterations != [] && !iterations[0].watcherDied {
      CheckAgrees(table, iterations[0].net, faults, at, s);
      var c := RunCheck(table, iterations[0].net, faults, at, s);
      RunAgrees(table, iterations[1..], faults, c.at, c.after);
    }
  }

  function JustConnected(profile: ServerProfile): State {
    State(profile, profile.profileId, [], [], Tunnel(Some(profile), true))
  }

  ghost predicate WorkerAgrees(table: Table, profile: ServerProfile, iterations: seq<Iteration>,
                               faults: nat -> bool, at: nat)
    requires IsTable(table)
  {
    InAgreement(RunWorker(table, iterations, faults, at, JustConnected(profile)).after)
  }

  /** From a connected worker, every run under every fault pattern ends in agreement
      exactly when no profile of the table has an empty id. */
  lemma WorkerAgreementIff(table: Table, profile: ServerProfile)
    requires IsTable(table) && profile.profileId != ""
    ensures (forall iterations, faults, at :: WorkerAgrees(table, profile, iterations, faults, at)) <==> "" !in table
  {
    if "" !in table {
      forall iterations, faults, at ensures WorkerAgrees(table, profile, iterations, faults, at) {
        RunAgrees(table, iterations, faults, at, JustConnected(profile));
      }
    } else {
      EmptyIdBreaksWorker(table, profile);
    }
  }

  /** Three silent checks; in the third the switch is refused and cannot be undone. */
  lemma EmptyIdBreaksWorker(table: Table, profile: ServerProfile)
    requires IsTable(table) && profile.profileId != "" && "" in table
    ensures exists iterations, faults, at :: !WorkerAgrees(table, profile, iterations, faults, at)
  {
    hide UnreachableSuffix, IsBest, RunFailing, RunCheck;
    var net: Network := (p: ServerProfile) => Some(if p.profileId == "" then Connected(1.0) else TimedOut);
    var one := Iteration(net, false);
    var faults: nat -> bool := n => n >= 6;
    var s := JustConnected(profile);
    var s1, s2, s3 := s.(answers := [false]), s.(answers := [false, false]), s.(answers := [false, false, false]);
    CountSuffix();
    assert [] + [false] == [false] && [false] + [false] == [false, false] && [false, false] + [false] == [false, false, false];
    SilentCheck(table, net, faults, 0, s);
    SilentCheck(table, net, faults, 1, s1);
    SilentCheck(table, net, faults, 2, s2);
    RefusedSwitch(table, net, faults, 3, s3);
    WorkerFirst(table, one, [one] + ([one] + []), faults, 0, s);
    WorkerFirst(table, one, [one] + [], faults, 1, s1);
    WorkerFirst(table, one, [], faults, 2, s2);
    assert !WorkerAgrees(table, profile, [one] + ([one] + ([one] + [])), faults, 0);
  }

  lemma SilentCheck(table: Table, net: Network, faults: nat -> bool, at: nat, s: State)
    requires IsTable(table) && table != map[] && !faults(at) && s.active == s.current.profileId
    requires net(s.current).Some? && !net(s.current).value.Connected?
    ensures var heard := s.(answers := s.answers + [false]);
            RunCheck(table, net, faults, at, s) ==
            if UnreachableSuffix(heard.answers) < THRESHOLD then Checked(heard, at + 1, false)
            else RunFailing(table, net, faults, at + 1, heard)
  {
    hide RunFailing, UnreachableSuffix;
  }

  lemma RefusedSwitch(table: Table, net: Network, faults: nat -> bool, at: nat, s: State)
    requires IsTable(table) && "" in table && s.active == s.current.profileId != "" && s.tunnel == Tunnel(Some(s.current), true)
    requires forall p: ServerProfile :: net(p) == Some(if p.profileId == "" then Connected(1.0) else TimedOut)
    requires !faults(at) && !faults(at + 1) && !faults(at + 2) && faults(at + 3) && faults(at + 4)
    ensures !InAgreement(RunFailing(table, net, faults, at, s).after)
  {
    hide Results, IsBest;
    OnlyEmptyAnswers(table, net, s.current.profileId);
    BestIsUnique(Results(table, net).Values, s.current.profileId, Some(""), Best(Results(table, net).Values, s.current.profileId));
  }

  lemma WorkerFirst(table: Table, one: Iteration, more: seq<Iteration>, faults: nat -> bool, at: nat, s: State)
    requires IsTable(table) && !one.watcherDied
    ensures var c := RunCheck(table, one.net, faults, at, s);
            RunWorker(table, [one] + more, faults, at, s) == RunWorker(table, more, faults, c.at, c.after)
  {
    hide RunCheck;
    assert ([one] + more)[1..] == more;
  }

  /** Healing: whatever earlier failed switches left behind, the next silent answer at the
      threshold installs the best alternative, if the calls of that check succeed. */
  lemma NextFailureHeals(table: Table, net: Network, faults: nat -> bool, at: nat, s: State, next: string)
    requires IsTable(table) && UnreachableSuffix(s.answers) + 1 >= THRESHOLD && s.active == s.current.profileId
    requires net(s.current).Some? && !net(s.current).value.Connected?
    requires forall n :: at <= n < at + 4 ==> !faults(n)
    requires next != "" && IsBest(Results(table, net).Values, s.current.profileId, Some(next))
    ensures next in table
    ensures RunCheck(table, net, faults, at, s) ==
            Checked(State(table[next], next, [], s.events + [FailoverEvent(s.active, next, GUI_REASON)],
                          Tunnel(Some(table[next]), true)), at + 4, false)
  {
    hide Results, IsBest;
    var results := Results(table, net);
    assert (s.answers + [false])[..|s.answers|] == s.answers;
    BestIsUnique(results.Values, s.current.profileId, Some(next), Best(results.Values, s.current.profileId));
    BestIsKnown(results, s.current.profileId);
  }

  // ---- every check, over the network ----

  /** The count of misses in a row that the record holds. */
  function Count(s: State): nat { UnreachableSuffix(s.answers) }

  /** Everything but the answers. */
  predicate SameBut(s: State, t: State) {
    t == s.(answers := t.answers)
  }

  /** What a check that begins at attempt n does to a worker in agreement: `pick` is the
      alternative to go to, if there is one. */
  ghost predicate CheckDecided(table: Table, net: Network, faults: nat -> bool, n: nat, s: State, pick: Option<string>, c: Checked)
    requires pick.Some? ==> pick.value in table
  {
    var t := c.after;
    if table == map[] then c == Checked(s, n, false)
    else if faults(n) || net(s.current).None? then c == Checked(s, n + 1, true)
    else if Connects(net, s.current) then !c.raised && SameBut(s, t) && Count(t) == 0 && c.at == n + 1
    else if Count(s) + 1 < 3 then !c.raised && SameBut(s, t) && Count(t) == Count(s) + 1 && c.at == n + 1
    else if faults(n + 1) then c.raised && SameBut(s, t) && Count(t) == Count(s) + 1 && c.at == n + 2
    else if pick.None? then !c.raised && SameBut(s, t) && Count(t) == Count(s) + 1 && c.at == n + 2
    else if faults(n + 2) || faults(n + 3) || pick.value == "" then
      && !c.raised && t.current == s.current && t.active == s.active && t.events == s.events && Count(t) == Count(s) + 1
      && c.at > n && (!faults(c.at - 1) ==> t.tunnel == Tunnel(Some(s.current), true))
    else
      && !c.raised && c.at == n + 4
      && t == State(table[pick.value], pick.value, [], s.events + [FailoverEvent(s.active, pick.value, "3 consecutive failures")],
                    Tunnel(Some(table[pick.value]), true))
  }

  /** Over the network and the faults alone: a connection starts the count again, at three
      misses in a row the fastest alternative is installed, and a failed switch keeps the count
      so that the next miss tries again. */
  lemma CheckDecides(table: Table, net: Network, faults: nat -> bool, n: nat, s: State)
    requires IsTable(table) && InAgreement(s)
    ensures var c := RunCheck(table, net, faults, n, s);
            && (NoAlternative(table, net, s.active) ==> CheckDecided(table, net, faults, n, s, None, c))
            && forall next :: Fastest(table, net, s.active, next) ==> CheckDecided(table, net, faults, n, s, Some(next), c)
  {
    hide CheckDecided, Results, NoAlternative, Fastest, RunCheck;
    BestIsFastest(table, net, s.active);
    PickDecides(table, net, faults, n, s);
  }

  lemma PickDecides(table: Table, net: Network, faults: nat -> bool, n: nat, s: State)
    requires IsTable(table) && InAgreement(s)
    ensures var pick := Best(Results(table, net).Values, s.active);
            (pick.Some? ==> pick.value in table) && CheckDecided(table, net, faults, n, s, pick, RunCheck(table, net, faults, n, s))
  {
    hide UnreachableSuffix, Results, RunFailing, IsTable, Best, Agrees;
    BestIsPresent(table, net, s.active);
    NoAnswersNoSuffix();
    if net(s.current).Some? {
      SuffixStep(s.answers, [Connects(net, s.current)]);
      FailingDecides(table, net, faults, n + 1, s.(answers := s.answers + [Connects(net, s.current)]));
    }
  }

  lemma BestIsPresent(table: Table, net: Network, active: string)
    requires IsTable(table)
    ensures var pick := Best(Results(table, net).Values, active); pick.Some? ==> pick.value in table
  {
    if Best(Results(table, net).Values, active).Some? { BestIsKnown(Results(table, net), active); }
  }

  /** The half of a check that follows the third miss. */
  lemma FailingDecides(table: Table, net: Network, faults: nat -> bool, n: nat, s: State)
    requires IsTable(table) && InAgreement(s)
    ensures var c := RunFailing(table, net, faults, n, s);
            var pick := Best(Results(table, net).Values, s.active);
            && (pick.Some? ==> pick.value in table)
            && if faults(n) || pick.None? then c == Checked(s, n + 1, faults(n))
               else if faults(n + 1) || faults(n + 2) || pick.value == "" then
                 && !c.raised && c.at > n && c.after == s.(tunnel := c.after.tunnel)
                 && (!faults(c.at - 1) ==> c.after.tunnel == Tunnel(Some(s.current), true))
               else c == Checked(State(table[pick.value], pick.value, [], s.events + [FailoverEvent(s.active, pick.value, GUI_REASON)],
                                       Tunnel(Some(table[pick.value]), true)), n + 3, false)
  {
    hide Results, RunGuiSwitch;
    var pick := Best(Results(table, net).Values, s.active);
    if pick.Some? {
      BestIsKnown(Results(table, net), s.active);
      GuiSwitchDecides(table, faults, n + 1, s, pick.value);
    }
  }

  lemma GuiSwitchDecides(table: Table, faults: nat -> bool, n: nat, s: State, id: string)
    requires IsTable(table) && id in table
    ensures var c := RunGuiSwitch(table, faults, n, s, id);
            && !c.raised && c.at > n
            && if faults(n) || faults(n + 1) || id == "" then
                 SameBut(s.(tunnel := c.after.tunnel), c.after) && c.after.answers == s.answers
                 && (!faults(c.at - 1) ==> c.after.tunnel == Tunnel(Some(s.current), true))
               else
                 && c.at == n + 2
                 && c.after == State(table[id], id, [], s.events + [FailoverEvent(s.active, id, GUI_REASON)], Tunnel(Some(table[id]), true))
  {
    LastCallDecides(s.tunnel, s.current, table[id], id != "", faults, n);
  }

  /** A run is its checks one after the other, up to the death of the kill-switch watcher,
      which alone is raised. */
  lemma {:induction false} WorkerAppend(table: Table, iterations: seq<Iteration>, last: Iteration, faults: nat -> bool, at: nat, s: State)
    requires IsTable(table)
    ensures var c := RunWorker(table, iterations, faults, at, s);
            var all := RunWorker(table, iterations + [last], faults, at, s);
            && (c.raised <==> exists k :: 0 <= k < |iterations| && iterations[k].watcherDied)
            && if c.raised then all == c
               else if last.watcherDied then all == Checked(c.after, c.at, true)
               else all == RunCheck(table, last.net, faults, c.at, c.after).(raised := false)
    decreases |iterations|
  {
    hide RunCheck;
    var all := iterations + [last];
    if iterations == [] {
      assert all == [last] && all[1..] == [];
    } else {
      assert all[0] == iterations[0] && all[1..] == iterations[1..] + [last];
      if !iterations[0].watcherDied {
        var c := RunCheck(table, iterations[0].net, faults, at, s);
        WorkerAppend(table, iterations[1..], last, faults, c.at, c.after);
        assert forall k :: 1 <= k < |iterations| ==> iterations[k] == iterations[1..][k - 1];
      }
    }
  }

  // ---- the worker ----

  class ConnectionWorker {
    const host: Host
    const manager: FailoverManager
    const allProfiles: Table
    var profile: ServerProfile
    var outboundOwned: bool
    var client: bool          // whether `_client` is set

    constructor (host: Host, manager: FailoverManager, allProfiles: Table, profile: ServerProfile)
      requires host.Valid() && manager.Valid() && manager.activeProfileId == profile.profileId && manager.threshold == THRESHOLD
      requires host.outbound == Some(profile) && IsTable(allProfiles)
      ensures Valid() && InAgreement(Now()) && this.profile == profile && client
      ensures this.host == host && this.manager == manager && this.allProfiles == allProfiles
    {
      this.host, this.manager, this.allProfiles, this.profile := host, manager, allProfiles, profile;
      outboundOwned, client := true, true;
    }

    ghost predicate Valid()
      reads this, host, manager
    {
      && host.Valid() && IsTable(allProfiles)
      && manager.Valid() && manager.threshold == THRESHOLD
    }

    function Held(): Tunnel
      reads this, host
    {
      Tunnel(host.outbound, outboundOwned)
    }

    ghost function Now(): State
      reads this, host, manager
    {
      State(profile, manager.activeProfileId, manager.answers, manager.events, Held())
    }

    /** The recovery both handlers share. */
    method RestorePrevious(previous: ServerProfile)
      requires Valid()
      modifies `outboundOwned, host`trace, host`outbound
      ensures Valid() && Held() == Recover(old(Held()), previous, host.faults, |old(host.trace)|)
      ensures |host.trace| == |old(host.trace)| + if old(outboundOwned) then 2 else 1
    {
      hide Once, Chain;
      if outboundOwned {
        var ok := host.RpcRemove();
        if ok { outboundOwned := false; }
      }
      var ok := host.RpcAdd(previous);
      if ok { outboundOwned := true; }
    }

    /** The two `try` blocks of a check, from the first removal on. */
    method SwitchProfile(next: ServerProfile)
      requires Valid() && next.profileId in allProfiles && allProfiles[next.profileId] == next
      requires next.profileId != manager.activeProfileId
      modifies `outboundOwned, `profile, host`trace, host`outbound
      modifies manager`activeProfileId, manager`consecutiveFailures, manager`events, manager`answers
      ensures Valid()
      ensures RunGuiSwitch(allProfiles, host.faults, |old(host.trace)|, old(Now()), next.profileId) == Checked(Now(), |host.trace|, false)
    {
      hide Once, Chain, Recover, UnreachableSuffix;
      var previous := profile;
      // try:
      var ok := host.RpcRemove();
      if ok {
        outboundOwned := false;
        ok := host.RpcAdd(next);
        if ok { outboundOwned := true; }
      }
      // except Exception:
      if !ok {
        RestorePrevious(previous);
        return;
      }
      var event := manager.TriggerFailover(next.profileId, GUI_REASON);
      if event.None? {
        RestorePrevious(previous);
        return;
      }
      profile := next;
    }

    /** `check_profile_health` and `check_all_profiles`, each of which may raise. */
    method CheckAll(net: Network) returns (results: Option<map<string, HealthCheckResult>>)
      requires Valid()
      modifies host`trace
      ensures Valid() && |host.trace| == |old(host.trace)| + 1
      ensures results == if old(host.Succeeds()) then Some(Results(allProfiles, net)) else None
    {
      hide Once, Chain, UnreachableSuffix;
      var ok := host.Attempt(CheckHealth);
      if !ok { return None; }
      var profiles := Values(allProfiles);
      var all := CheckAllProfiles(profiles, net);
      TableResults(allProfiles, profiles, net, all);
      results := Some(all);
    }

    /** `_async_failover_check`; `raised` is an exception of a health check. */
    method AsyncFailoverCheck(net: Network) returns (raised: bool)
      requires Valid()
      modifies `outboundOwned, `profile, host`trace, host`outbound
      modifies manager`activeProfileId, manager`consecutiveFailures, manager`events, manager`answers
      ensures Valid()
      ensures !client ==> Now() == old(Now()) && !raised && host.trace == old(host.trace)
      ensures client ==> RunCheck(allProfiles, net, host.faults, |old(host.trace)|, old(Now())) == Checked(Now(), |host.trace|, raised)
    {
      hide Once, Chain, UnreachableSuffix, RunFailing;
      if allProfiles == map[] || !client { return false; }
      var ok := host.Attempt(CheckHealth);
      if !ok || net(profile).None? { return true; }
      manager.RecordActiveProfileResult(CheckTcpReachable(profile, net(profile).value));
      if !manager.ShouldFailover() { return false; }
      raised := FailOver(net);
    }

    method FailOver(net: Network) returns (raised: bool)
      requires Valid()
      modifies `outboundOwned, `profile, host`trace, host`outbound
      modifies manager`activeProfileId, manager`consecutiveFailures, manager`events, manager`answers
      ensures Valid()
      ensures RunFailing(allProfiles, net, host.faults, |old(host.trace)|, old(Now())) == Checked(Now(), |host.trace|, raised)
    {
      hide Once, Chain, UnreachableSuffix, IsBest, Results, RunGuiSwitch;
      var results := CheckAll(net);
      if results.None? { return true; }
      var pick := PickBest(results.value, manager.activeProfileId);
      BestIsUnique(results.value.Values, manager.activeProfileId, pick, Best(results.value.Values, manager.activeProfileId));
      BestIsKnown(results.value, manager.activeProfileId);
      if pick.None? || pick.value == profile.profileId || pick.value !in allProfiles { return false; }
      SwitchProfile(allProfiles[pick.value]);
      raised := false;
    }

    /** `_failover_loop`: exactly `RunWorker`, and so in agreement after every run. */
    method FailoverLoop(iterations: seq<Iteration>) returns (raised: bool)
      requires Valid() && client
      modifies `outboundOwned, `profile, host`trace, host`outbound
      modifies manager`activeProfileId, manager`consecutiveFailures, manager`events, manager`answers
      ensures Valid()
      ensures RunWorker(allProfiles, iterations, host.faults, |old(host.trace)|, old(Now())) == Checked(Now(), |host.trace|, raised)
      ensures "" !in allProfiles && old(InAgreement(Now())) ==> InAgreement(Now())
    {
      assert IsTable(allProfiles);
      hide Once, Chain, UnreachableSuffix, RunCheck, Valid, InAgreement;
      ghost var whole := RunWorker(allProfiles, iterations, host.faults, |host.trace|, Now());
      if "" !in allProfiles && InAgreement(Now()) {
        RunAgrees(allProfiles, iterations, host.faults, |host.trace|, Now());
      }
      assert iterations[0..] == iterations;
      for i := 0 to |iterations|
        invariant Valid()
        invariant whole == RunWorker(allProfiles, iterations[i..], host.faults, |host.trace|, Now())
      {
        assert iterations[i..][1..] == iterations[i + 1..] && iterations[i..][0] == iterations[i];
        if iterations[i].watcherDied { return true; }
        var logged := AsyncFailoverCheck(iterations[i].net);
      }
      raised := false;
    }
  }
}
