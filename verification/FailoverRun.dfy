/** Whole runs of the command line's failover loop (orchestrator/bimarz/connection.py:204-307)
    as a function of the profile table, the networks and the fault pattern, and what
    every run keeps.  `Connection.ConnectionService.FailoverLoop` computes this function. */
module FailoverRun {
  import opened Text
  import opened Health
  import opened Failover
  import opened Services
  import opened TunnelSwitch

  datatype Event =
    | Started(profileId: string) | EngineReady | KillSwitchEnabled | FailoverTriggered(event: FailoverEvent)
    | KillSwitchWatcherDied | ProcessStopped | CleanupDone | ErrorEvent

  /** What one round of a watch loop meets: the network, whether the kill-switch watcher
      has died, and whether a stop is requested before the next round.  The list of
      rounds ends when the process dies or a stop was requested earlier. */
  datatype Round = Round(net: Network, watcherDied: bool, stopRequested: bool)

  type Table = map<string, ServerProfile>

  /** Every profile stands under its own id. */
  predicate IsTable(table: Table) {
    forall id <- table :: table[id].profileId == id
  }

  /** The failover record and the tunnel at one moment; `answers` are those of the active
      profile since the last switch. */
  datatype Progress = Progress(active: string, answers: seq<bool>, switches: nat, tunnel: Tunnel)

  /** How a round or a loop ends, at attempt number `at`. */
  datatype Outcome = Outcome(after: Progress, at: nat, raised: Option<Error>, leave: bool, emitted: seq<Event>)

  const REASON := "3 consecutive health-check failures"

  /** The result map of a batch over the whole table. */
  function Results(table: Table, net: Network): (results: map<string, HealthCheckResult>)
    requires IsTable(table)
    ensures forall id <- results :: id in table && results[id].profileId == id
  {
    map id | id in table && net(table[id]).Some? :: CheckTcpReachable(table[id], net(table[id]).value)
  }

  /** What the active profile's counter hears of a batch. */
  function Heard(results: map<string, HealthCheckResult>, active: string): seq<bool> {
    if active in results then [results[active].reachable] else []
  }

  function WatcherEvents(round: Round): seq<Event> {
    if round.watcherDied then [KillSwitchWatcherDied] else []
  }

  /** What may leave a round or a loop: an attempt of its own that failed, or the refusal of
      an empty id that the table holds. */
  ghost predicate Accounted(o: Outcome, table: Table, faults: nat -> bool, from: nat) {
    o.raised.Some? ==>
      match o.raised.value
      case Fault(n) => from <= n < o.at && faults(n)
      case EmptyProfileId => "" in table
      case _ => false
  }

  /** One round from attempt `at` on. */
  ghost function RunRound(table: Table, round: Round, faults: nat -> bool, at: nat, p: Progress): (o: Outcome)
    requires IsTable(table) && p.active in table
    ensures o.after.active in table && o.at > at
    ensures Accounted(o, table, faults, at)
  {
    if faults(at) then Outcome(p, at + 1, Some(Fault(at)), false, [])
    else
      var results := Results(table, round.net);
      var heard := p.(answers := p.answers + Heard(results, p.active));
      var ends := round.watcherDied || round.stopRequested;
      if UnreachableSuffix(heard.answers) < THRESHOLD then Outcome(heard, at + 1, None, ends, WatcherEvents(round))
      else match Best(results.Values, p.active)
        case None => Outcome(heard, at + 1, None, true, [ErrorEvent])
        case Some(id) => BestIsKnown(results, p.active); RunSwitch(table, round, faults, at + 1, heard, id)
  }

  /** The rest of a round that has found its next profile. */
  function RunSwitch(table: Table, round: Round, faults: nat -> bool, at: nat, p: Progress, id: string): (o: Outcome)
    requires IsTable(table) && p.active in table && id in table
    ensures o.after.active in table && o.at > at && (o.raised.Some? ==> o.raised.value == EmptyProfileId && id == "")
  {
    var (tunnel, done) := Switch(p.tunnel, table[p.active], table[id], true, faults, at);
    var next := at + SwitchLength(p.tunnel, true, faults, at);
    if !done then Outcome(p.(tunnel := tunnel), next, None, true, [ErrorEvent])
    else if id == "" then Outcome(p.(tunnel := tunnel), next, Some(EmptyProfileId), false, [])
    else Outcome(Progress(id, [], p.switches + 1, tunnel), next, None, round.watcherDied || round.stopRequested,
                 [Event.FailoverTriggered(FailoverEvent(p.active, id, REASON))] + WatcherEvents(round))
  }

  ghost function RunLoop(table: Table, rounds: seq<Round>, faults: nat -> bool, at: nat, p: Progress): (o: Outcome)
    requires IsTable(table) && p.active in table
    ensures o.after.active in table && o.at >= at
    ensures Accounted(o, table, faults, at)
  {
    if rounds == [] then Outcome(p, at, None, false, [])
    else
      var o := RunRound(table, rounds[0], faults, at, p);
      if o.raised.Some? || o.leave then o
      else
        var rest := RunLoop(table, rounds[1..], faults, o.at, o.after);
        rest.(emitted := o.emitted + rest.emitted)
  }

  // ---- what every run keeps ----

  /** Who is active and what should be installed: the initial profile until the first
      switch, then the table's profile for the active id. */
  function Expected(table: Table, initial: ServerProfile, p: Progress): ServerProfile
    requires p.active in table
  {
    if p.switches == 0 then initial else table[p.active]
  }

  ghost predicate AtLoopHead(table: Table, initial: ServerProfile, p: Progress, rounds: nat) {
    && IsTable(table) && p.active in table && p.active != ""
    && UnreachableSuffix(p.answers) < THRESHOLD
    && THRESHOLD * p.switches + UnreachableSuffix(p.answers) <= rounds
    && p.tunnel == Tunnel(Some(Expected(table, initial, p)), true)
  }

  ghost predicate AfterLoop(table: Table, initial: ServerProfile, o: Outcome, rounds: nat) {
    var p := o.after;
    && IsTable(table) && p.active in table && p.active != ""
    && THRESHOLD * p.switches + UnreachableSuffix(p.answers) <= rounds
    && (p.tunnel.owned <==> p.tunnel.installed.Some?)
    && (o.raised != Some(EmptyProfileId) && p.tunnel.owned ==>
          p.tunnel.installed == Some(Expected(table, initial, p)) || p.tunnel.installed == Some(table[p.active]))
    && (o.raised.Some? ==> p.tunnel.owned && (o.raised.value.Fault? || o.raised.value == EmptyProfileId))
    // The one way to disagree: a profile whose id is the empty string was chosen.
    && (o.raised == Some(EmptyProfileId) ==> "" in table && p.tunnel.installed == Some(table[""]))
  }

  lemma SuffixGrows(answers: seq<bool>, more: seq<bool>)
    requires |more| <= 1
    ensures UnreachableSuffix(answers + more) <= UnreachableSuffix(answers) + |more|
  {
    if more == [] { assert answers + more == answers; } else { assert (answers + more)[..|answers|] == answers; }
  }

  /** How a step from inside a round must end. */
  ghost predicate Kept(table: Table, initial: ServerProfile, o: Outcome, rounds: nat) {
    if o.raised.Some? || o.leave then AfterLoop(table, initial, o, rounds) else AtLoopHead(table, initial, o.after, rounds)
  }

  lemma SwitchKeeps(table: Table, initial: ServerProfile, round: Round, faults: nat -> bool, at: nat, p: Progress,
                    id: string, rounds: nat)
    requires IsTable(table) && p.active in table && p.active != "" && id in table
    requires p.tunnel == Tunnel(Some(Expected(table, initial, p)), true)
    requires UnreachableSuffix(p.answers) == THRESHOLD && THRESHOLD * p.switches + THRESHOLD <= rounds
    ensures Kept(table, initial, RunSwitch(table, round, faults, at, p, id), rounds)
  {
    hide UnreachableSuffix;
    NoAnswersNoSuffix();
  }

  lemma RoundKeeps(table: Table, initial: ServerProfile, round: Round, faults: nat -> bool, at: nat, p: Progress,
                   rounds: nat)
    requires AtLoopHead(table, initial, p, rounds)
    ensures Kept(table, initial, RunRound(table, round, faults, at, p), rounds + 1)
  {
    hide UnreachableSuffix, Results, RunSwitch;
    if !faults(at) {
      var results := Results(table, round.net);
      var heard := p.(answers := p.answers + Heard(results, p.active));
      SuffixGrows(p.answers, Heard(results, p.active));
      var pick := Best(results.Values, p.active);
      if UnreachableSuffix(heard.answers) >= THRESHOLD && pick.Some? {
        BestIsKnown(results, p.active);
        SwitchKeeps(table, initial, round, faults, at + 1, heard, pick.value, rounds + 1);
      }
    }
  }

  lemma NoAnswersNoSuffix()
    ensures UnreachableSuffix([]) == 0
  {
  }

  lemma KeptLonger(table: Table, initial: ServerProfile, o: Outcome, p: Outcome, few: nat, many: nat)
    requires Kept(table, initial, o, few) && few <= many && o.after == p.after && o.raised == p.raised && o.leave == p.leave
    ensures Kept(table, initial, p, many)
  {
  }

  /** Every run of the loop, for every table, network and fault pattern.  A run that has not
      left the loop is at a head: the outbound is owned and is the expected profile, and the
      counter is below the threshold.  At the exit that profile is installed if owned, and
      nothing if not.  As `rounds` is any list, this covers every head of every run. */
  lemma {:induction false} LoopKeeps(table: Table, initial: ServerProfile, rounds: seq<Round>, faults: nat -> bool,
                                     at: nat, p: Progress, before: nat)
    requires AtLoopHead(table, initial, p, before)
    ensures Kept(table, initial, RunLoop(table, rounds, faults, at, p), before + |rounds|)
    decreases |rounds|
  {
    hide RunRound, UnreachableSuffix, Kept;
    if rounds == [] {
      AtHead(table, initial, p, at, before);
    } else {
      RoundKeeps(table, initial, rounds[0], faults, at, p, before);
      var o := RunRound(table, rounds[0], faults, at, p);
      var whole := RunLoop(table, rounds, faults, at, p);
      if o.raised.Some? || o.leave {
        KeptLonger(table, initial, o, whole, before + 1, before + |rounds|);
      } else {
        StillAtHead(table, initial, o, before + 1);
        LoopKeeps(table, initial, rounds[1..], faults, o.at, o.after, before + 1);
        var rest := RunLoop(table, rounds[1..], faults, o.at, o.after);
        KeptLonger(table, initial, rest, whole, before + |rounds|, before + |rounds|);
      }
    }
  }

  lemma AtHead(table: Table, initial: ServerProfile, p: Progress, at: nat, rounds: nat)
    requires AtLoopHead(table, initial, p, rounds)
    ensures Kept(table, initial, Outcome(p, at, None, false, []), rounds)
  {
  }

  lemma StillAtHead(table: Table, initial: ServerProfile, o: Outcome, rounds: nat)
    requires Kept(table, initial, o, rounds) && o.raised.None? && !o.leave
    ensures AtLoopHead(table, initial, o.after, rounds)
  {
  }

  /** So active and installed agree at the exit, for every table without an empty id in
      which the initial profile stands under its own id. */
  lemma LoopAgreement(table: Table, initial: ServerProfile, rounds: seq<Round>, faults: nat -> bool, at: nat)
    requires IsTable(table) && "" !in table && initial.profileId in table && table[initial.profileId] == initial
    ensures var p := RunLoop(table, rounds, faults, at, Progress(initial.profileId, [], 0, Tunnel(Some(initial), true))).after;
            p.active in table && Agrees(p.tunnel, table[p.active])
  {
    hide RunLoop;
    NoAnswersNoSuffix();
    var p := Progress(initial.profileId, [], 0, Tunnel(Some(initial), true));
    LoopHistory(table, rounds, faults, at, p);
    LoopKeeps(table, initial, rounds, faults, at, p, 0);
  }

  // ---- the history ----

  /** The switches among the reported events. */
  function Triggered(events: seq<Event>): seq<FailoverEvent> {
    if events == [] then []
    else (if events[0].FailoverTriggered? then [events[0].event] else []) + Triggered(events[1..])
  }

  lemma {:induction false} TriggeredAppend(a: seq<Event>, b: seq<Event>)
    ensures Triggered(a + b) == Triggered(a) + Triggered(b)
  {
    if a == [] {
      assert a + b == b;
    } else {
      assert (a + b)[0] == a[0] && (a + b)[1..] == a[1..] + b;
      TriggeredAppend(a[1..], b);
    }
  }

  lemma {:induction false} ChainPrepend(e: FailoverEvent, rest: seq<FailoverEvent>, end: string)
    requires e.fromProfileId != e.toProfileId && e.toProfileId != "" && Chain(e.toProfileId, rest, end)
    ensures Chain(e.fromProfileId, [e] + rest, end)
  {
    var all := [e] + rest;
    if rest == [] {
      assert all[..0] == [];
    } else {
      var n := |rest| - 1;
      assert all[..|all| - 1] == [e] + rest[..n];
      ChainPrepend(e, rest[..n], rest[n].fromProfileId);
    }
  }

  /** At most one switch, away from the active id. */
  ghost predicate OneSwitch(p: Progress, o: Outcome) {
    var t := Triggered(o.emitted);
    && o.after.switches == p.switches + |t|
    && (if t == [] then o.after.active == p.active
        else t == [FailoverEvent(p.active, o.after.active, REASON)] && o.after.active != p.active && o.after.active != "")
  }

  lemma SwitchHistory(table: Table, round: Round, faults: nat -> bool, at: nat, p: Progress, id: string)
    requires IsTable(table) && p.active in table && id in table && id != p.active
    ensures OneSwitch(p, RunSwitch(table, round, faults, at, p, id))
  {
    hide Switch, SwitchLength;
    TriggeredAppend([Event.FailoverTriggered(FailoverEvent(p.active, id, REASON))], WatcherEvents(round));
  }

  lemma RoundHistory(table: Table, round: Round, faults: nat -> bool, at: nat, p: Progress)
    requires IsTable(table) && p.active in table
    ensures OneSwitch(p, RunRound(table, round, faults, at, p))
  {
    hide Results, UnreachableSuffix, RunSwitch, Triggered;
    NothingTriggered();
    if !faults(at) {
      var results := Results(table, round.net);
      var pick := Best(results.Values, p.active);
      if pick.Some? {
        BestIsKnown(results, p.active);
        SwitchHistory(table, round, faults, at + 1, p.(answers := p.answers + Heard(results, p.active)), pick.value);
      }
    }
  }

  /** The reported switches lead from the initial id to the active id, each from where the
      previous one ended and never to itself, and there are as many as were counted. */
  lemma {:induction false} LoopHistory(table: Table, rounds: seq<Round>, faults: nat -> bool, at: nat, p: Progress)
    requires IsTable(table) && p.active in table
    ensures var o := RunLoop(table, rounds, faults, at, p);
            Chain(p.active, Triggered(o.emitted), o.after.active) && o.after.switches == p.switches + |Triggered(o.emitted)|
    decreases |rounds|
  {
    hide RunRound, Triggered;
    if rounds == [] {
      TriggeredAppend([], []);
      NothingTriggered();
    } else {
      RoundHistory(table, rounds[0], faults, at, p);
      var o := RunRound(table, rounds[0], faults, at, p);
      var t := Triggered(o.emitted);
      if o.raised.None? && !o.leave {
        LoopHistory(table, rounds[1..], faults, o.at, o.after);
        var rest := RunLoop(table, rounds[1..], faults, o.at, o.after);
        TriggeredAppend(o.emitted, rest.emitted);
        if t == [] { assert t + Triggered(rest.emitted) == Triggered(rest.emitted); }
        else { ChainPrepend(t[0], Triggered(rest.emitted), rest.after.active); }
      } else if t != [] {
        ChainPrepend(t[0], [], o.after.active);
        assert [t[0]] + [] == t;
      }
    }
  }

  lemma NothingTriggered()
    ensures Triggered([]) == Triggered([ErrorEvent]) == Triggered([KillSwitchWatcherDied]) == []
  {
    assert [ErrorEvent][1..] == [] && [KillSwitchWatcherDied][1..] == [];
  }

  // ---- when it switches ----

  /** A round in which the active server does not answer and nothing else ends the loop. */
  predicate FailsQuietly(table: Table, round: Round, active: string)
    requires active in table
  {
    var probe := round.net(table[active]);
    probe.Some? && !probe.value.Connected? && !round.watcherDied && !round.stopRequested
  }

  /** From a fresh start two silent rounds change nothing but the count; the third
      goes on to a switch. */
  lemma ThirdRound(table: Table, p: Progress, a: Round, b: Round, c: Round, faults: nat -> bool, at: nat, next: string)
    requires IsTable(table) && p.active in table && p.answers == []
    requires FailsQuietly(table, a, p.active) && FailsQuietly(table, b, p.active) && FailsQuietly(table, c, p.active)
    requires !faults(at) && !faults(at + 1) && !faults(at + 2)
    requires IsBest(Results(table, c.net).Values, p.active, Some(next))
    ensures next in table && next != p.active
    ensures RunLoop(table, [a, b], faults, at, p) == Outcome(p.(answers := [false, false]), at + 2, None, false, [])
    ensures RunLoop(table, [a, b, c], faults, at, p) ==
            RunSwitch(table, c, faults, at + 3, p.(answers := [false, false, false]), next)
  {
    hide Results, IsBest, RunSwitch, Heard, FailsQuietly, UnreachableSuffix;
    var q, r := p.(answers := [false]), p.(answers := [false, false]);
    CountSuffix();
    assert [] + [false] == [false] && [false] + [false] == [false, false] && [false, false] + [false] == [false, false, false];
    QuietRound(table, a, faults, at, p);
    QuietRound(table, b, faults, at + 1, q);
    BestIsUnique(Results(table, c.net).Values, p.active, Some(next), Best(Results(table, c.net).Values, p.active));
    BestIsKnown(Results(table, c.net), p.active);
    QuietHeard(table, c, p.active);
    var last := RunSwitch(table, c, faults, at + 3, r.(answers := [false, false, false]), next);
    assert RunRound(table, c, faults, at + 2, r) == last;
    hide RunRound;
    LoopOfOne(table, c, faults, at + 2, r);
    LoopFirst(table, b, [c], faults, at + 1, q);
    LoopFirst(table, a, [b, c], faults, at, p);
    LoopOfOne(table, b, faults, at + 1, q);
    LoopFirst(table, a, [b], faults, at, p);
    assert [a] + [b] == [a, b] && [b] + [c] == [b, c] && [a] + [b, c] == [a, b, c];
  }

  lemma LoopFirst(table: Table, round: Round, more: seq<Round>, faults: nat -> bool, at: nat, p: Progress)
    requires IsTable(table) && p.active in table
    ensures var o := RunRound(table, round, faults, at, p);
            o.raised.None? && !o.leave && o.emitted == [] ==>
              RunLoop(table, [round] + more, faults, at, p) == RunLoop(table, more, faults, o.at, o.after)
  {
    hide RunRound;
    assert ([round] + more)[1..] == more;
    assert forall events: seq<Event> :: [] + events == events;
  }

  lemma LoopOfOne(table: Table, round: Round, faults: nat -> bool, at: nat, p: Progress)
    requires IsTable(table) && p.active in table
    ensures RunLoop(table, [round], faults, at, p) == RunRound(table, round, faults, at, p)
  {
    hide RunRound;
    assert [round][1..] == [];
    assert forall events: seq<Event> :: events + [] == events;
  }

  /** The purpose of the loop: the third failure in a row switches to the best reachable
      alternative, if the two calls succeed. */
  lemma ThirdFailureSwitches(table: Table, p: Progress, a: Round, b: Round, c: Round, faults: nat -> bool, at: nat,
                             next: string)
    requires IsTable(table) && p.active in table && p.answers == []
    requires FailsQuietly(table, a, p.active) && FailsQuietly(table, b, p.active) && FailsQuietly(table, c, p.active)
    requires forall n :: at <= n < at + 5 ==> !faults(n)
    requires next != "" && IsBest(Results(table, c.net).Values, p.active, Some(next))
    ensures next in table
    ensures RunLoop(table, [a, b, c], faults, at, p) ==
            Outcome(Progress(next, [], p.switches + 1, Tunnel(Some(table[next]), true)), at + 5, None, false,
                    [Event.FailoverTriggered(FailoverEvent(p.active, next, REASON))])
  {
    hide RunLoop, Results, IsBest;
    ThirdRound(table, p, a, b, c, faults, at, next);
    var report := [Event.FailoverTriggered(FailoverEvent(p.active, next, REASON))];
    assert report + [] == report;
  }

  // ---- every round, over the network ----

  /** How many failed checks of a profile in a row end these rounds: a connection starts the
      count again, and a check that gives no answer does not change it. */
  function Misses(table: Table, id: string, rounds: seq<Round>): nat
    requires id in table
  {
    if rounds == [] then 0
    else
      var before := Misses(table, id, rounds[..|rounds| - 1]);
      match rounds[|rounds| - 1].net(table[id])
      case None => before
      case Some(Connected(_)) => 0
      case Some(_) => before + 1
  }

  /** The alternative with the shortest connection time, the smaller id among equals. */
  ghost predicate Fastest(table: Table, net: Network, active: string, id: string) {
    && id in table && id != active && Connects(net, table[id])
    && forall other <- table :: other != active && other != id && Connects(net, table[other]) ==>
         || Elapsed(net, table[id]) < Elapsed(net, table[other])
         || (Elapsed(net, table[id]) == Elapsed(net, table[other]) && Before(id, other))
  }

  predicate Connects(net: Network, profile: ServerProfile) {
    var probe := net(profile);
    probe.Some? && probe.value.Connected?
  }

  function Elapsed(net: Network, profile: ServerProfile): real
    requires Connects(net, profile)
  {
    net(profile).value.elapsedMs
  }

  ghost predicate NoAlternative(table: Table, net: Network, active: string) {
    forall id <- table :: id != active ==> !Connects(net, table[id])
  }

  /** The pick is the fastest alternative, and there is no pick exactly when none connects. */
  lemma BestIsFastest(table: Table, net: Network, active: string)
    requires IsTable(table)
    ensures var pick := Best(Results(table, net).Values, active);
            && (pick.None? <==> NoAlternative(table, net, active))
            && forall id :: Fastest(table, net, active, id) <==> pick == Some(id)
  {
    var results := Results(table, net);
    var pick := Best(results.Values, active);
    forall id | id in table ensures id in results && IsCandidate(results[id], active) <==> id != active && Connects(net, table[id]) {
    }
    if pick.None? {
      forall id | id in table && id != active ensures !Connects(net, table[id]) {
        if id in results { assert results[id] in results.Values; }
      }
    } else {
      BestIsKnown(results, active);
      PickIsFastest(table, net, active, pick.value);
    }
    forall id | Fastest(table, net, active, id) ensures pick == Some(id) {
      assert id in results && results[id] in results.Values;
      if pick.Some? { OneFastest(table, net, active, id, pick.value); }
    }
  }

  lemma OneFastest(table: Table, net: Network, active: string, a: string, b: string)
    requires Fastest(table, net, active, a) && Fastest(table, net, active, b)
    ensures a == b
  {
    BeforeIsTotal(a, b);
  }

  lemma PickIsFastest(table: Table, net: Network, active: string, id: string)
    requires IsTable(table) && IsBest(Results(table, net).Values, active, Some(id))
    ensures Fastest(table, net, active, id)
  {
    var results := Results(table, net);
    var best :| best in results.Values && IsCandidate(best, active) && best.profileId == id &&
                forall v <- results.Values :: IsCandidate(v, active) ==> !KeyBefore(v, best);
    var key :| key in results && results[key] == best;
    assert key == id;
    forall other <- table | other != active && other != id && Connects(net, table[other])
      ensures Elapsed(net, table[id]) < Elapsed(net, table[other]) ||
              (Elapsed(net, table[id]) == Elapsed(net, table[other]) && Before(id, other))
    {
      assert other in results && results[other] in results.Values && IsCandidate(results[other], active);
      BeforeIsTotal(id, other);
    }
  }

  /** What the record hears of a round is whether the active profile connected, if its check
      gave an answer. */
  lemma HeardFromNet(table: Table, net: Network, active: string)
    requires IsTable(table) && active in table
    ensures Heard(Results(table, net), active) == if net(table[active]).None? then [] else [Connects(net, table[active])]
  {
  }

  lemma {:induction false} LoopAppend(table: Table, rounds: seq<Round>, last: Round, faults: nat -> bool, at: nat, p: Progress)
    requires IsTable(table) && p.active in table
    ensures var o := RunLoop(table, rounds, faults, at, p);
            var all := RunLoop(table, rounds + [last], faults, at, p);
            if o.raised.Some? || o.leave then all == o
            else
              var q := RunRound(table, last, faults, o.at, o.after);
              all == q.(emitted := o.emitted + q.emitted)
    decreases |rounds|
  {
    hide RunRound;
    if rounds == [] {
      LoopOfOne(table, last, faults, at, p);
      assert [] + [last] == [last];
      assert forall events: seq<Event> :: [] + events == events;
    } else {
      var all := rounds + [last];
      assert all[0] == rounds[0] && all[1..] == rounds[1..] + [last];
      var o := RunRound(table, rounds[0], faults, at, p);
      if o.raised.None? && !o.leave {
        LoopAppend(table, rounds[1..], last, faults, o.at, o.after);
        var rest := RunLoop(table, rounds[1..], faults, o.at, o.after);
        if rest.raised.None? && !rest.leave {
          var q := RunRound(table, last, faults, rest.at, rest.after);
          assert o.emitted + (rest.emitted + q.emitted) == (o.emitted + rest.emitted) + q.emitted;
        }
      }
    }
  }

  /** A run that goes on continues from where it is: whatever holds from a fresh start holds
      again after every switch. */
  lemma {:induction false} LoopSplit(table: Table, a: seq<Round>, b: seq<Round>, faults: nat -> bool, at: nat, p: Progress)
    requires IsTable(table) && p.active in table
    ensures var o := RunLoop(table, a, faults, at, p);
            o.raised.None? && !o.leave ==>
              var rest := RunLoop(table, b, faults, o.at, o.after);
              RunLoop(table, a + b, faults, at, p) == rest.(emitted := o.emitted + rest.emitted)
    decreases |a|
  {
    hide RunRound;
    if a == [] {
      assert a + b == b;
      assert forall events: seq<Event> :: [] + events == events;
    } else {
      assert (a + b)[0] == a[0] && (a + b)[1..] == a[1..] + b;
      var first := RunRound(table, a[0], faults, at, p);
      if first.raised.None? && !first.leave {
        LoopSplit(table, a[1..], b, faults, first.at, first.after);
        var mid := RunLoop(table, a[1..], faults, first.at, first.after);
        var rest := RunLoop(table, b, faults, mid.at, mid.after);
        assert first.emitted + (mid.emitted + rest.emitted) == (first.emitted + mid.emitted) + rest.emitted;
      }
    }
  }

  /** A loop that goes on and has not switched: nothing but the count has changed, and the
      count is that of the network. */
  ghost predicate Watching(table: Table, rounds: seq<Round>, at: nat, p: Progress, o: Outcome)
    requires p.active in table
  {
    && o.raised.None? && !o.leave && o.emitted == [] && o.at == at + |rounds|
    && o.after == p.(answers := o.after.answers)
    && UnreachableSuffix(o.after.answers) == Misses(table, p.active, rounds) < 3
  }

  lemma {:induction false} CountIsMisses(table: Table, rounds: seq<Round>, faults: nat -> bool, at: nat, p: Progress)
    requires IsTable(table) && p.active in table && p.answers == []
    requires var o := RunLoop(table, rounds, faults, at, p); o.raised.None? && !o.leave && o.after.switches == p.switches
    ensures Watching(table, rounds, at, p, RunLoop(table, rounds, faults, at, p))
    decreases |rounds|
  {
    hide RunLoop, RunRound, UnreachableSuffix;
    if rounds == [] {
      NoAnswersNoSuffix();
      EmptyLoop(table, faults, at, p);
    } else {
      var front, last := rounds[..|rounds| - 1], rounds[|rounds| - 1];
      assert rounds == front + [last];
      LoopAppend(table, front, last, faults, at, p);
      LoopHistory(table, front, faults, at, p);
      var o := RunLoop(table, front, faults, at, p);
      RoundHistory(table, last, faults, o.at, o.after);
      CountIsMisses(table, front, faults, at, p);
      QuietOrSwitch(table, last, faults, o.at, o.after);
      SuffixStep(o.after.answers, Heard(Results(table, last.net), p.active));
      HeardFromNet(table, last.net, p.active);
      var none: seq<Event> := [];
      assert none + none == none;
    }
  }

  lemma EmptyLoop(table: Table, faults: nat -> bool, at: nat, p: Progress)
    requires IsTable(table) && p.active in table
    ensures RunLoop(table, [], faults, at, p) == Outcome(p, at, None, false, [])
  {
  }

  /** A round that goes on without a switch has only heard an answer and is below the threshold. */
  lemma QuietOrSwitch(table: Table, round: Round, faults: nat -> bool, at: nat, p: Progress)
    requires IsTable(table) && p.active in table
    ensures var o := RunRound(table, round, faults, at, p);
            o.raised.None? && !o.leave && o.after.switches == p.switches ==>
              && o.at == at + 1 && o.emitted == []
              && o.after == p.(answers := p.answers + Heard(Results(table, round.net), p.active))
              && UnreachableSuffix(o.after.answers) < THRESHOLD
  {
    hide UnreachableSuffix, Results, Heard;
  }

  lemma SuffixStep(answers: seq<bool>, more: seq<bool>)
    requires |more| <= 1
    ensures UnreachableSuffix(answers + more) ==
            if more == [] then UnreachableSuffix(answers) else if more[0] then 0 else UnreachableSuffix(answers) + 1
  {
    if more == [] { assert answers + more == answers; } else { assert (answers + more)[..|answers|] == answers; }
  }

  /** What a round that begins at attempt n has done to p when it ends in o: `due` says
      whether the threshold is reached, `pick` who is to be next. */
  ghost predicate Decided(table: Table, round: Round, faults: nat -> bool, n: nat, p: Progress, due: bool, pick: Option<string>, o: Outcome)
    requires p.active in table && (pick.Some? ==> pick.value in table)
  {
    var died := if round.watcherDied then [KillSwitchWatcherDied] else [];
    var stays := o.after.active == p.active && o.after.switches == p.switches;
    if faults(n) then o.raised == Some(Fault(n)) && stays && o.after.tunnel == p.tunnel && o.emitted == []
    else if !due then
      && o.raised.None? && stays && o.after.tunnel == p.tunnel && o.emitted == died
      && o.leave == (round.watcherDied || round.stopRequested)
    else if pick.None? then
      o.raised.None? && o.leave && stays && o.after.tunnel == p.tunnel && o.emitted == [ErrorEvent]
    else if faults(n + 1) || faults(n + 2) then
      && o.raised.None? && o.leave && stays && o.emitted == [ErrorEvent]
      && (o.after.tunnel.installed == Some(table[p.active]) || o.after.tunnel.installed == None || o.after.tunnel == p.tunnel)
    else if pick.value == "" then
      o.raised == Some(EmptyProfileId) && stays && o.after.tunnel == Tunnel(Some(table[pick.value]), true) && o.emitted == []
    else
      && o.raised.None? && o.leave == (round.watcherDied || round.stopRequested)
      && o.after == Progress(pick.value, [], p.switches + 1, Tunnel(Some(table[pick.value]), true))
      && o.emitted == [Event.FailoverTriggered(FailoverEvent(p.active, pick.value, "3 consecutive health-check failures"))] + died
  }

  /** What the next round of a loop that has not switched does, over the network and the
      faults alone: the threshold is three misses in a row, and the next profile is the fastest
      alternative. */
  lemma NextRoundDecides(table: Table, rounds: seq<Round>, last: Round, faults: nat -> bool, at: nat, p: Progress)
    requires IsTable(table) && p.active in table && p.answers == []
    requires var o := RunLoop(table, rounds, faults, at, p); o.raised.None? && !o.leave && o.after.switches == p.switches
    ensures var o := RunLoop(table, rounds + [last], faults, at, p);
            var n, due := at + |rounds|, Misses(table, p.active, rounds + [last]) >= 3;
            && (!due || NoAlternative(table, last.net, p.active) ==> Decided(table, last, faults, n, p, due, None, o))
            && forall next :: Fastest(table, last.net, p.active, next) ==> Decided(table, last, faults, n, p, due, Some(next), o)
  {
    hide RunLoop, RunRound, UnreachableSuffix, Misses, NoAlternative, Results, Heard, Decided;
    CountIsMisses(table, rounds, faults, at, p);
    LoopAppend(table, rounds, last, faults, at, p);
    var before := RunLoop(table, rounds, faults, at, p);
    MissesStep(table, p.active, rounds, last);
    HeardFromNet(table, last.net, p.active);
    SuffixStep(before.after.answers, Heard(Results(table, last.net), p.active));
    BestIsFastest(table, last.net, p.active);
    RoundDecides(table, last, faults, before.at, before.after);
    var q := RunRound(table, last, faults, before.at, before.after);
    assert [] + q.emitted == q.emitted && q.(emitted := q.emitted) == q;
    var due := Misses(table, p.active, rounds + [last]) >= 3;
    var pick := Best(Results(table, last.net).Values, p.active);
    DecidedFrom(table, last, faults, before.at, before.after, p, due, pick, q);
  }

  lemma MissesStep(table: Table, id: string, rounds: seq<Round>, last: Round)
    requires id in table
    ensures var heard := last.net(table[id]);
            Misses(table, id, rounds + [last]) ==
            if heard.None? then Misses(table, id, rounds) else if heard.value.Connected? then 0 else Misses(table, id, rounds) + 1
  {
    assert (rounds + [last])[..|rounds|] == rounds;
  }

  /** Only the active id, the count of switches and the tunnel matter, and the pick only when due. */
  lemma DecidedFrom(table: Table, round: Round, faults: nat -> bool, n: nat, p: Progress, q: Progress, due: bool, pick: Option<string>, o: Outcome)
    requires p.active in table && (pick.Some? ==> pick.value in table) && Decided(table, round, faults, n, p, due, pick, o)
    requires q == p.(answers := q.answers)
    ensures Decided(table, round, faults, n, q, due, pick, o)
    ensures !due ==> Decided(table, round, faults, n, q, due, None, o)
  {
  }

  lemma RoundDecides(table: Table, round: Round, faults: nat -> bool, at: nat, p: Progress)
    requires IsTable(table) && p.active in table
    ensures var due := UnreachableSuffix(p.answers + Heard(Results(table, round.net), p.active)) >= THRESHOLD;
            var pick := Best(Results(table, round.net).Values, p.active);
            && (pick.Some? ==> pick.value in table)
            && Decided(table, round, faults, at, p, due, pick, RunRound(table, round, faults, at, p))
  {
    hide UnreachableSuffix, Results, Heard, RunSwitch;
    var results := Results(table, round.net);
    var heard := p.(answers := p.answers + Heard(results, p.active));
    var pick := Best(results.Values, p.active);
    BestIsKnown(results, p.active);
    if !faults(at) && UnreachableSuffix(heard.answers) >= THRESHOLD && pick.Some? {
      hide Decided;
      SwitchDecides(table, round, faults, at, heard, pick.value);
      DecidedFrom(table, round, faults, at, heard, p, true, pick, RunRound(table, round, faults, at, p));
    }
  }

  lemma SwitchDecides(table: Table, round: Round, faults: nat -> bool, n: nat, p: Progress, id: string)
    requires IsTable(table) && p.active in table && id in table && !faults(n)
    ensures Decided(table, round, faults, n, p, true, Some(id), RunSwitch(table, round, faults, n + 1, p, id))
  {
  }

  // ---- when active and installed can disagree ----

  ghost predicate AlwaysAgrees(table: Table, initial: ServerProfile)
    requires IsTable(table) && initial.profileId in table
  {
    forall rounds, faults, at :: LoopAgrees(table, initial, rounds, faults, at)
  }

  ghost predicate LoopAgrees(table: Table, initial: ServerProfile, rounds: seq<Round>, faults: nat -> bool, at: nat)
    requires IsTable(table) && initial.profileId in table
  {
    var p := RunLoop(table, rounds, faults, at, Progress(initial.profileId, [], 0, Tunnel(Some(initial), true))).after;
    Agrees(p.tunnel, table[p.active])
  }

  /** Agreement in every run is guaranteed exactly for the tables that hold the initial
      profile itself under its id and have no profile with an empty id. */
  lemma AgreementIff(table: Table, initial: ServerProfile)
    requires IsTable(table) && initial.profileId in table && initial.profileId != ""
    ensures AlwaysAgrees(table, initial) <==> table[initial.profileId] == initial && "" !in table
  {
    hide RunLoop;
    if table[initial.profileId] == initial && "" !in table {
      forall rounds, faults, at ensures LoopAgrees(table, initial, rounds, faults, at) {
        LoopAgreement(table, initial, rounds, faults, at);
      }
    } else if table[initial.profileId] != initial {
      NoRounds(table, initial);
      assert !LoopAgrees(table, initial, [], n => false, 0);
    } else {
      EmptyIdBreaks(table, initial);
    }
  }

  lemma NoRounds(table: Table, initial: ServerProfile)
    requires IsTable(table) && initial.profileId in table
    ensures var p := Progress(initial.profileId, [], 0, Tunnel(Some(initial), true));
            RunLoop(table, [], n => false, 0, p).after == p
  {
  }

  /** Three rounds in which only the profile with the empty id answers. */
  lemma EmptyIdBreaks(table: Table, initial: ServerProfile)
    requires IsTable(table) && initial.profileId in table && initial.profileId != "" && "" in table
    ensures exists rounds, faults, at :: !LoopAgrees(table, initial, rounds, faults, at)
  {
    hide RunLoop, Results, IsBest;
    var net: Network := (profile: ServerProfile) => Some(if profile.profileId == "" then Connected(1.0) else TimedOut);
    var round := Round(net, false, false);
    var p := Progress(initial.profileId, [], 0, Tunnel(Some(initial), true));
    var faults: nat -> bool := n => false;
    OnlyEmptyAnswers(table, net, p.active);
    ThirdRound(table, p, round, round, round, faults, 0, "");
    assert table[""] != table[p.active];
    assert !LoopAgrees(table, initial, [round, round, round], faults, 0);
  }

  lemma OnlyEmptyAnswers(table: Table, net: Network, active: string)
    requires IsTable(table) && "" in table && active != ""
    requires forall p: ServerProfile :: net(p) == Some(if p.profileId == "" then Connected(1.0) else TimedOut)
    ensures IsBest(Results(table, net).Values, active, Some(""))
  {
    var values := Results(table, net).Values;
    var answer := Results(table, net)[""];
    forall v <- values ensures IsCandidate(v, active) ==> v == answer {
      var id :| id in Results(table, net) && Results(table, net)[id] == v;
    }
    BeforeIsTotal("", "");
    assert answer in values && IsCandidate(answer, active);
  }

  lemma QuietHeard(table: Table, round: Round, active: string)
    requires IsTable(table) && active in table && FailsQuietly(table, round, active)
    ensures Heard(Results(table, round.net), active) == [false]
  {
  }

  lemma QuietRound(table: Table, round: Round, faults: nat -> bool, at: nat, p: Progress)
    requires IsTable(table) && p.active in table && FailsQuietly(table, round, p.active)
    requires !faults(at) && UnreachableSuffix(p.answers + [false]) < THRESHOLD
    ensures RunRound(table, round, faults, at, p) == Outcome(p.(answers := p.answers + [false]), at + 1, None, false, [])
  {
    hide Results;
    QuietHeard(table, round, p.active);
  }

  lemma CountSuffix()
    ensures UnreachableSuffix([false]) == 1 && UnreachableSuffix([false, false]) == 2 && UnreachableSuffix([false, false, false]) == 3
  {
    assert [false, false, false][..2] == [false, false] && [false, false][..1] == [false];
  }
}
