/** `FailoverManager` (orchestrator/bimarz/failover.py:85-191): the failure counter, the
    choice of an alternative and the event history. */
module Failover {
  import opened Text
  import opened Health

  const THRESHOLD: nat := 3   // FAILOVER_CONSECUTIVE_FAILURES_THRESHOLD

  datatype FailoverEvent = FailoverEvent(fromProfileId: string, toProfileId: string, reason: string)

  // ---- choosing an alternative ----

  predicate IsCandidate(r: HealthCheckResult, active: string) {
    r.profileId != active && r.reachable && r.latencyMs.Some?
  }

  /** The sort key (latency_ms, profile_id). */
  predicate KeyBefore(a: HealthCheckResult, b: HealthCheckResult)
    requires a.latencyMs.Some? && b.latencyMs.Some?
  {
    a.latencyMs.value < b.latencyMs.value ||
    (a.latencyMs.value == b.latencyMs.value && Before(a.profileId, b.profileId))
  }

  function Candidates(values: seq<HealthCheckResult>, active: string): (c: seq<HealthCheckResult>)
    ensures forall r :: r in c <==> r in values && IsCandidate(r, active)
  {
    if values == [] then []
    else (if IsCandidate(values[0], active) then [values[0]] else []) + Candidates(values[1..], active)
  }

  /** `min(candidates, key=...)` */
  function Least(c: seq<HealthCheckResult>): (r: HealthCheckResult)
    requires c != [] && forall r <- c :: r.latencyMs.Some?
    ensures r in c
  {
    if |c| == 1 then c[0]
    else
      var rest := Least(c[1..]);
      if KeyBefore(rest, c[0]) then rest else c[0]
  }

  function PickBestAlternative(values: seq<HealthCheckResult>, active: string): Option<string> {
    var candidates := Candidates(values, active);
    if candidates == [] then None else Some(Least(candidates).profileId)
  }

  /** The specification: the unique (latency, id) minimum of the reachable non-active
      results, and None exactly when there is none. */
  ghost predicate IsBest(values: set<HealthCheckResult>, active: string, pick: Option<string>) {
    match pick
    case None => forall v <- values :: !IsCandidate(v, active)
    case Some(id) =>
      exists best :: best in values && IsCandidate(best, active) && best.profileId == id &&
                     forall v <- values :: IsCandidate(v, active) ==> !KeyBefore(v, best)
  }

  lemma {:induction false} LeastIsMinimal(c: seq<HealthCheckResult>)
    requires c != [] && forall r <- c :: r.latencyMs.Some?
    ensures forall r <- c :: !KeyBefore(r, Least(c))
  {
    var best := Least(c);
    forall r <- c ensures !KeyBefore(r, best) {
      BeforeIsTotal(r.profileId, r.profileId);
      if |c| > 1 {
        LeastIsMinimal(c[1..]);
        var rest := Least(c[1..]);
        BeforeIsTotal(rest.profileId, c[0].profileId);
        if r in c[1..] && KeyBefore(r, best) && best == c[0] {
          assert !KeyBefore(r, rest) && !KeyBefore(rest, c[0]);
          if r.latencyMs == rest.latencyMs && rest.latencyMs == c[0].latencyMs {
            BeforeIsTotal(r.profileId, rest.profileId);
            if Before(rest.profileId, r.profileId) {
              BeforeIsTransitive(rest.profileId, r.profileId, c[0].profileId);
            }
          }
        }
      }
    }
  }

  lemma PickIsBest(values: seq<HealthCheckResult>, active: string)
    ensures IsBest((set v <- values), active, PickBestAlternative(values, active))
  {
    var c := Candidates(values, active);
    if c != [] {
      LeastIsMinimal(c);
      assert Least(c) in values;
    } else {
      forall v <- values ensures !IsCandidate(v, active) { assert v !in c; }
    }
  }

  lemma BestIsUnique(values: set<HealthCheckResult>, active: string, p: Option<string>, q: Option<string>)
    requires IsBest(values, active, p) && IsBest(values, active, q)
    ensures p == q
  {
    if p.Some? && q.Some? {
      var a :| a in values && IsCandidate(a, active) && a.profileId == p.value &&
               forall v <- values :: IsCandidate(v, active) ==> !KeyBefore(v, a);
      var b :| b in values && IsCandidate(b, active) && b.profileId == q.value &&
               forall v <- values :: IsCandidate(v, active) ==> !KeyBefore(v, b);
      BeforeIsTotal(a.profileId, b.profileId);
    }
  }

  ghost function Listed(values: set<HealthCheckResult>): (s: seq<HealthCheckResult>)
    ensures (set v <- s) == values
  {
    if values == {} then []
    else
      var v :| v in values;
      var rest := Listed(values - {v});
      assert (set x <- [v] + rest) == {v} + (set x <- rest);
      [v] + rest
  }

  /** The one pick that is best. */
  ghost function Best(values: set<HealthCheckResult>, active: string): (pick: Option<string>)
    ensures IsBest(values, active, pick)
  {
    PickIsBest(Listed(values), active);
    PickBestAlternative(Listed(values), active)
  }

  /** With results filed under their own ids, the pick is one of the ids and not the active
      one: `profile_map[best_id]` is always defined. */
  lemma BestIsKnown(results: map<string, HealthCheckResult>, active: string)
    requires forall id <- results :: results[id].profileId == id
    ensures var pick := Best(results.Values, active);
            pick.Some? ==> pick.value in results && pick.value != active
  {
    var pick := Best(results.Values, active);
    if pick.Some? {
      var best :| best in results.Values && IsCandidate(best, active) && best.profileId == pick.value;
      var id :| id in results && results[id] == best;
    }
  }

  /** `pick_best_alternative(all_results)`, the dictionary read in any order. */
  method PickBest(results: map<string, HealthCheckResult>, active: string) returns (pick: Option<string>)
    ensures IsBest(results.Values, active, pick)
  {
    var values: seq<HealthCheckResult> := [];
    var rest := results.Keys;
    while rest != {}
      invariant rest <= results.Keys
      invariant forall r :: r in values <==> exists id :: id in results && id !in rest && results[id] == r
      decreases |rest|
    {
      var id :| id in rest;
      ghost var before := rest;
      values, rest := values + [results[id]], rest - {id};
      forall r
        ensures r in values <==> exists id :: id in results && id !in rest && results[id] == r
      {
        if k :| k in results && k !in rest && results[k] == r { assert k == id || k !in before; }
      }
    }
    assert (set v <- values) == results.Values;
    PickIsBest(values, active);
    pick := PickBestAlternative(values, active);
  }

  // ---- the counter and the history ----

  /** Length of the run of failures at the end. */
  function UnreachableSuffix(answers: seq<bool>): nat {
    if answers == [] || answers[|answers| - 1] then 0
    else 1 + UnreachableSuffix(answers[..|answers| - 1])
  }

  /** The events lead from `start` to `end`, each from where the previous one ended, none
      to where it started. */
  ghost predicate Chain(start: string, events: seq<FailoverEvent>, end: string) {
    if events == [] then end == start
    else
      var last := events[|events| - 1];
      && last.toProfileId == end && last.fromProfileId != end && end != ""
      && Chain(start, events[..|events| - 1], last.fromProfileId)
  }

  lemma {:induction false} ChainLinks(start: string, events: seq<FailoverEvent>, end: string, i: nat)
    requires Chain(start, events, end) && i < |events|
    ensures events[i].fromProfileId == if i == 0 then start else events[i - 1].toProfileId
    ensures events[i].fromProfileId != events[i].toProfileId && events[i].toProfileId != ""
  {
    var front, last := events[..|events| - 1], events[|events| - 1];
    if i < |front| {
      ChainLinks(start, front, last.fromProfileId, i);
    } else if front != [] {
      assert front[|front| - 1].toProfileId == last.fromProfileId;
    }
  }

  class FailoverManager {
    var activeProfileId: string
    const threshold: nat
    var consecutiveFailures: nat
    var events: seq<FailoverEvent>

    ghost const initial: string
    ghost var answers: seq<bool>   // reachability of the active profile since the last switch

    ghost predicate Valid()
      reads this
    {
      && threshold >= 1 && activeProfileId != ""
      && consecutiveFailures == UnreachableSuffix(answers)
      && Chain(initial, events, activeProfileId)
    }

    constructor (activeProfileId: string, threshold: nat)
      requires activeProfileId != "" && threshold >= 1
      ensures Valid() && this.activeProfileId == activeProfileId && initial == activeProfileId
      ensures this.threshold == threshold && consecutiveFailures == 0 && events == [] && answers == []
    {
      this.activeProfileId, this.threshold := activeProfileId, threshold;
      consecutiveFailures, events := 0, [];
      initial, answers := activeProfileId, [];
    }

    /** `__init__` with its two ValueErrors: null when it raises. */
    static method Create(activeProfileId: string, threshold: int) returns (m: FailoverManager?)
      ensures m == null <==> activeProfileId == "" || threshold < 1
      ensures m != null ==> fresh(m) && m.Valid() && m.activeProfileId == m.initial == activeProfileId
      ensures m != null ==> m.threshold == threshold && m.consecutiveFailures == 0 && m.events == [] && m.answers == []
    {
      if activeProfileId == "" || threshold < 1 { return null; }
      m := new FailoverManager(activeProfileId, threshold);
    }

    method RecordActiveProfileResult(result: HealthCheckResult)
      requires Valid()
      modifies `consecutiveFailures, `answers
      ensures Valid()
      ensures answers == if result.profileId == activeProfileId then old(answers) + [result.reachable] else old(answers)
      ensures consecutiveFailures <= old(consecutiveFailures) + 1
    {
      if result.profileId != activeProfileId { return; }
      assert (answers + [result.reachable])[..|answers|] == answers;
      answers := answers + [result.reachable];
      if result.reachable {
        consecutiveFailures := 0;
      } else {
        consecutiveFailures := consecutiveFailures + 1;
      }
    }

    predicate ShouldFailover()
      reads this
    {
      consecutiveFailures >= threshold
    }

    /** None when it raises ValueError; the record is then untouched. */
    method TriggerFailover(toProfileId: string, reason: string) returns (event: Option<FailoverEvent>)
      requires Valid()
      modifies `activeProfileId, `consecutiveFailures, `events, `answers
      ensures Valid()
      ensures event.None? <==> toProfileId == "" || toProfileId == old(activeProfileId)
      ensures event.None? ==> activeProfileId == old(activeProfileId) && events == old(events) && answers == old(answers)
      ensures event.Some? ==>
                && event.value == FailoverEvent(old(activeProfileId), toProfileId, reason)
                && activeProfileId == toProfileId && events == old(events) + [event.value] && answers == []
    {
      if toProfileId == "" || toProfileId == activeProfileId { return None; }
      var e := FailoverEvent(activeProfileId, toProfileId, reason);
      activeProfileId, consecutiveFailures, answers := toProfileId, 0, [];
      assert (events + [e])[..|events|] == events;
      events := events + [e];
      event := Some(e);
    }
  }

  /** What the counter means: that many answers in a row were failures, and no more. */
  lemma {:induction false} SuffixMeans(answers: seq<bool>)
    ensures var n := UnreachableSuffix(answers);
            && n <= |answers|
            && (forall i :: |answers| - n <= i < |answers| ==> !answers[i])
            && (n < |answers| ==> answers[|answers| - n - 1])
  {
    if answers != [] && !answers[|answers| - 1] {
      var front := answers[..|answers| - 1];
      SuffixMeans(front);
      assert forall i :: 0 <= i < |front| ==> front[i] == answers[i];
    }
  }
}
