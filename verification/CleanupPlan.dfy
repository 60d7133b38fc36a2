/** What a cleanup must attempt and report, step by step, whatever fails:
    `_cleanup_resources` and `cleanup` in orchestrator/bimarz/connection.py. */
module CleanupPlan {
  import opened Text
  import opened Services

  /** The six release steps; a step's message is named by the step. */
  datatype Step = Signals | Watcher | Outbound | Engine | XrayProcess | KillSwitch

  type Plan = seq<(Step, seq<Effect>)>

  ghost function Effects(plan: Plan): seq<Effect> {
    if plan == [] then [] else Effects(plan[..|plan| - 1]) + plan[|plan| - 1].1
  }

  /** The messages: one for each step of which some attempt raised. */
  ghost function Report(plan: Plan, faults: nat -> bool, at: nat): seq<Step> {
    if plan == [] then []
    else
      var front, last := plan[..|plan| - 1], plan[|plan| - 1];
      Report(front, faults, at) + if AnyFault(faults, at + |Effects(front)|, |last.1|) then [last.0] else []
  }

  lemma Extend(plan: Plan, step: Step, effects: seq<Effect>, faults: nat -> bool, at: nat)
    ensures var more := plan + [(step, effects)];
            && Effects(more) == Effects(plan) + effects
            && Report(more, faults, at) == Report(plan, faults, at) + if AnyFault(faults, at + |Effects(plan)|, |effects|) then [step] else []
  {
    assert (plan + [(step, effects)])[..|plan|] == plan;
  }

  /** Some attempt of step k of the plan raised. */
  ghost predicate StepRaised(plan: Plan, k: nat, faults: nat -> bool, at: nat)
    requires k < |plan|
  {
    AnyFault(faults, at + |Effects(plan[..k])|, |plan[k].1|)
  }

  ghost predicate OneEach(plan: Plan) {
    forall i, j :: 0 <= i < j < |plan| ==> plan[i].0 != plan[j].0
  }

  /** Total and exact: a step is reported if and only if one of its own attempts raised,
      and never twice. */
  lemma {:induction false} ReportIsExact(plan: Plan, faults: nat -> bool, at: nat, k: nat)
    requires OneEach(plan) && k < |plan|
    ensures plan[k].0 in Report(plan, faults, at) <==> StepRaised(plan, k, faults, at)
    ensures multiset(Report(plan, faults, at))[plan[k].0] <= 1
  {
    hide AnyFault, Report, Effects;
    var n := |plan| - 1;
    var front, last := plan[..n], plan[n];
    var reported := Report(front, faults, at);
    ReportLast(plan, faults, at);
    if k < n {
      assert front[k] == plan[k] && front[..k] == plan[..k] && OneEach(front);
      ReportIsExact(front, faults, at, k);
      assert plan[k].0 != last.0;
    } else {
      NewStepUnreported(plan, faults, at);
    }
  }

  lemma ReportLast(plan: Plan, faults: nat -> bool, at: nat)
    requires plan != []
    ensures var n := |plan| - 1;
            Report(plan, faults, at) == Report(plan[..n], faults, at) + if StepRaised(plan, n, faults, at) then [plan[n].0] else []
  {
  }

  lemma NewStepUnreported(plan: Plan, faults: nat -> bool, at: nat)
    requires plan != [] && OneEach(plan)
    ensures plan[|plan| - 1].0 !in Report(plan[..|plan| - 1], faults, at)
  {
    hide Report;
    var front := plan[..|plan| - 1];
    assert forall j :: 0 <= j < |front| ==> front[j] == plan[j];
    ReportedStepsArePlanned(front, faults, at, plan[|plan| - 1].0);
  }

  lemma {:induction false} ReportedStepsArePlanned(plan: Plan, faults: nat -> bool, at: nat, step: Step)
    ensures step in Report(plan, faults, at) ==> exists k :: 0 <= k < |plan| && plan[k].0 == step
  {
    hide AnyFault;
    if plan != [] {
      var front := plan[..|plan| - 1];
      ReportedStepsArePlanned(front, faults, at, step);
      assert forall k :: 0 <= k < |front| ==> front[k] == plan[k];
      if step in Report(front, faults, at) {
        var k :| 0 <= k < |front| && front[k].0 == step;
        assert plan[k].0 == step;
      }
    }
  }

  /** The attempts of one cleanup, in order. */
  function ReleasePlan(signals: bool, outbound: bool, engine: Option<nat>, closable: bool,
                       process: bool, proc: Option<nat>, dir: Option<nat>, killswitch: bool): Plan
  {
    [(Signals, if signals then [UnregisterSignals] else []),
     (Watcher, [StopWatcher]),
     (Outbound, if outbound && engine.Some? then [RemoveOutbound] else []),
     (Engine, CloseEffects(engine, closable)),
     (XrayProcess, if process then StopEffects(proc, dir) else []),
     (KillSwitch, if killswitch then [DisableKillSwitch] else [])]
  }

  lemma EffectsOfSix(a: (Step, seq<Effect>), b: (Step, seq<Effect>), c: (Step, seq<Effect>),
                     d: (Step, seq<Effect>), e: (Step, seq<Effect>), f: (Step, seq<Effect>))
    ensures Effects([a, b, c, d, e, f]) == a.1 + b.1 + c.1 + d.1 + e.1 + f.1
  {
    assert [a][..0] == [] && Effects([a]) == a.1;
    assert [a, b][..1] == [a] && Effects([a, b]) == a.1 + b.1;
    assert [a, b, c][..2] == [a, b] && Effects([a, b, c]) == a.1 + b.1 + c.1;
    assert [a, b, c, d][..3] == [a, b, c] && Effects([a, b, c, d]) == a.1 + b.1 + c.1 + d.1;
    assert [a, b, c, d, e][..4] == [a, b, c, d] && Effects([a, b, c, d, e]) == a.1 + b.1 + c.1 + d.1 + e.1;
    assert [a, b, c, d, e, f][..5] == [a, b, c, d, e];
  }

  /** What a cleanup is to attempt: the watcher is stopped in any case, and every resource
      it is told of is released. */
  predicate Due(x: Effect, signals: bool, outbound: bool, engine: Option<nat>, closable: bool,
                process: bool, proc: Option<nat>, dir: Option<nat>, killswitch: bool)
  {
    || x == StopWatcher
    || (signals && x == UnregisterSignals)
    || (outbound && engine.Some? && x == RemoveOutbound)
    || (closable && engine.Some? && x == CloseClient(engine.value))
    || (process && proc.Some? && x == StopProcess(proc.value))
    || (process && dir.Some? && x == CleanDir(dir.value))
    || (killswitch && x == DisableKillSwitch)
  }

  function Times(es: seq<Effect>, x: Effect): nat { multiset(es)[x] }

  /** It attempts that, each once, and nothing else. */
  lemma PlanAttempts(x: Effect, signals: bool, outbound: bool, engine: Option<nat>, closable: bool,
                     process: bool, proc: Option<nat>, dir: Option<nat>, killswitch: bool)
    ensures Times(Effects(ReleasePlan(signals, outbound, engine, closable, process, proc, dir, killswitch)), x) ==
            if Due(x, signals, outbound, engine, closable, process, proc, dir, killswitch) then 1 else 0
  {
    hide Effects, ReleasePlan, CloseEffects, StopEffects, Times;
    var s := if signals then [UnregisterSignals] else [];
    var o := if outbound && engine.Some? then [RemoveOutbound] else [];
    var e, p := CloseEffects(engine, closable), if process then StopEffects(proc, dir) else [];
    var k := if killswitch then [DisableKillSwitch] else [];
    PlanWritten(s, o, e, p, k, signals, outbound, engine, closable, process, proc, dir, killswitch);
    TimesSix(s, [StopWatcher], o, e, p, k, x);
    EarlyTimes(s, o, x, signals, outbound && engine.Some?);
    LateTimes(e, p, k, x, engine, closable, process, proc, dir, killswitch);
  }

  lemma EarlyTimes(s: seq<Effect>, o: seq<Effect>, x: Effect, signals: bool, outbound: bool)
    requires s == (if signals then [UnregisterSignals] else []) && o == (if outbound then [RemoveOutbound] else [])
    ensures Times(s, x) + Times([StopWatcher], x) + Times(o, x) ==
            if (signals && x == UnregisterSignals) || x == StopWatcher || (outbound && x == RemoveOutbound) then 1 else 0
  {
    hide Times;
    FlagTimes(s, signals, UnregisterSignals, x);
    FlagTimes([StopWatcher], true, StopWatcher, x);
    FlagTimes(o, outbound, RemoveOutbound, x);
  }

  lemma LateTimes(e: seq<Effect>, p: seq<Effect>, k: seq<Effect>, x: Effect, engine: Option<nat>, closable: bool,
                  process: bool, proc: Option<nat>, dir: Option<nat>, killswitch: bool)
    requires e == CloseEffects(engine, closable) && p == (if process then StopEffects(proc, dir) else [])
    requires k == if killswitch then [DisableKillSwitch] else []
    ensures Times(e, x) + Times(p, x) + Times(k, x) ==
            if (closable && engine.Some? && x == CloseClient(engine.value))
               || (process && proc.Some? && x == StopProcess(proc.value)) || (process && dir.Some? && x == CleanDir(dir.value))
               || (killswitch && x == DisableKillSwitch)
            then 1 else 0
  {
    hide Times, CloseEffects, StopEffects;
    FlagTimes(k, killswitch, DisableKillSwitch, x);
    CloseTimes(engine, closable, x);
    StopTimes(p, process, proc, dir, x);
  }

  lemma TimesSix(a: seq<Effect>, b: seq<Effect>, c: seq<Effect>, d: seq<Effect>, e: seq<Effect>, f: seq<Effect>, x: Effect)
    ensures Times(a + b + c + d + e + f, x) == Times(a, x) + Times(b, x) + Times(c, x) + Times(d, x) + Times(e, x) + Times(f, x)
  {
  }

  lemma FlagTimes(es: seq<Effect>, flag: bool, e: Effect, x: Effect)
    requires es == if flag then [e] else []
    ensures Times(es, x) == if flag && x == e then 1 else 0
  {
  }

  lemma CloseTimes(engine: Option<nat>, closable: bool, x: Effect)
    ensures Times(CloseEffects(engine, closable), x) == if closable && engine.Some? && x == CloseClient(engine.value) then 1 else 0
  {
  }

  lemma StopTimes(es: seq<Effect>, process: bool, proc: Option<nat>, dir: Option<nat>, x: Effect)
    requires es == if process then StopEffects(proc, dir) else []
    ensures Times(es, x) ==
            if process && ((proc.Some? && x == StopProcess(proc.value)) || (dir.Some? && x == CleanDir(dir.value))) then 1 else 0
  {
    assert multiset(StopEffects(proc, dir)) == multiset(ReleaseIf(Process, proc)) + multiset(ReleaseIf(Dir, dir));
  }

  lemma PlanWritten(s: seq<Effect>, o: seq<Effect>, e: seq<Effect>, p: seq<Effect>, k: seq<Effect>,
                    signals: bool, outbound: bool, engine: Option<nat>, closable: bool,
                    process: bool, proc: Option<nat>, dir: Option<nat>, killswitch: bool)
    requires s == (if signals then [UnregisterSignals] else []) && o == (if outbound && engine.Some? then [RemoveOutbound] else [])
    requires e == CloseEffects(engine, closable) && p == (if process then StopEffects(proc, dir) else [])
    requires k == if killswitch then [DisableKillSwitch] else []
    ensures Effects(ReleasePlan(signals, outbound, engine, closable, process, proc, dir, killswitch)) == s + [StopWatcher] + o + e + p + k
  {
    hide CloseEffects, StopEffects;
    EffectsOfSix((Signals, s), (Watcher, [StopWatcher]), (Outbound, o), (Engine, e), (XrayProcess, p), (KillSwitch, k));
  }

  /** A cleanup reports something if and only if one of its attempts failed. */
  lemma {:induction false} ReportsAnything(plan: Plan, faults: nat -> bool, at: nat)
    ensures Report(plan, faults, at) != [] <==> AnyFault(faults, at, |Effects(plan)|)
  {
    if plan != [] {
      var front, last := plan[..|plan| - 1], plan[|plan| - 1];
      ReportsAnything(front, faults, at);
      var from := at + |Effects(front)|;
      assert AnyFault(faults, at, |Effects(plan)|) <==> AnyFault(faults, at, |Effects(front)|) || AnyFault(faults, from, |last.1|) by {
        assert |Effects(plan)| == |Effects(front)| + |last.1|;
        if n: nat :| at <= n < at + |Effects(plan)| && faults(n) { assert n < from || from <= n < from + |last.1|; }
      }
    }
  }

  // ---- the order of releases ----

  /** Outbound removal, client close, process stop, kill-switch disable: in that order. */
  function Stage(e: Effect): nat {
    match e
    case RemoveOutbound => 1
    case CloseClient(_) => 2
    case StopProcess(_) => 3
    case DisableKillSwitch => 4
    case _ => 0
  }

  ghost predicate Ordered(trace: seq<Effect>) {
    forall i, j :: 0 <= i < j < |trace| && Stage(trace[i]) > 0 && Stage(trace[j]) > 0 ==> Stage(trace[i]) <= Stage(trace[j])
  }

  ghost predicate StagesBetween(es: seq<Effect>, low: nat, high: nat) {
    forall i :: 0 <= i < |es| ==> Stage(es[i]) == 0 || low <= Stage(es[i]) <= high
  }

  ghost predicate Staged(es: seq<Effect>, low: nat, high: nat) {
    Ordered(es) && StagesBetween(es, low, high)
  }

  lemma StagedConcat(a: seq<Effect>, b: seq<Effect>, low: nat, mid: nat, high: nat)
    requires Staged(a, low, mid) && Staged(b, mid, high) && low <= mid <= high
    ensures Staged(a + b, low, high)
  {
    forall i, j | 0 <= i < j < |a + b| && Stage((a + b)[i]) > 0 && Stage((a + b)[j]) > 0
      ensures Stage((a + b)[i]) <= Stage((a + b)[j])
    {
      if i < |a| <= j { assert (a + b)[i] == a[i] && (a + b)[j] == b[j - |a|]; }
    }
  }

  /** A list of at most two effects, none before `low` or after `high`. */
  lemma ShortStaged(es: seq<Effect>, low: nat, high: nat)
    requires |es| <= 1 || (|es| == 2 && Stage(es[1]) == 0) || (|es| == 2 && Stage(es[0]) == 0)
    requires forall e <- es :: Stage(e) == 0 || low <= Stage(e) <= high
    ensures Staged(es, low, high)
  {
  }

  /** A cleanup keeps the order when nothing past removal has been attempted, or when
      the client and the process are already gone. */
  lemma ReleasePlanOrdered(trace: seq<Effect>, signals: bool, outbound: bool, engine: Option<nat>, closable: bool,
                           process: bool, proc: Option<nat>, dir: Option<nat>, killswitch: bool)
    requires StagesBetween(trace, 0, 1) || (Ordered(trace) && engine.None? && proc.None?)
    ensures Ordered(trace + Effects(ReleasePlan(signals, outbound, engine, closable, process, proc, dir, killswitch)))
  {
    var plan := ReleasePlan(signals, outbound, engine, closable, process, proc, dir, killswitch);
    var s, w, o, e, p, k := plan[0].1, plan[1].1, plan[2].1, plan[3].1, plan[4].1, plan[5].1;
    EffectsOfSix(plan[0], plan[1], plan[2], plan[3], plan[4], plan[5]);
    assert plan == [plan[0], plan[1], plan[2], plan[3], plan[4], plan[5]];
    Regroup(trace, s, w, o, e, p, k);
    hide Effects, ReleasePlan, Staged, StagesBetween, Ordered;
    var early := StagesBetween(trace, 0, 1);
    PlanStages(signals, outbound, engine, closable, process, proc, dir, killswitch, if early then 0 else 4);
    StagedTrace(trace);
    if early {
      FiveStages(trace, s + w, o, e, p, k, 1, 1, 2, 3);
    } else {
      FiveStages(trace, s + w, o, e, p, k, 4, 4, 4, 4);
    }
  }

  lemma Regroup(t: seq<Effect>, a: seq<Effect>, b: seq<Effect>, c: seq<Effect>, d: seq<Effect>, e: seq<Effect>, f: seq<Effect>)
    ensures t + (a + b + c + d + e + f) == t + (a + b) + c + d + e + f
  {
  }

  lemma StagedTrace(trace: seq<Effect>)
    ensures StagesBetween(trace, 0, 1) ==> Staged(trace, 0, 1)
    ensures Ordered(trace) ==> Staged(trace, 0, 4)
  {
  }

  /** The stages of the six pieces, raised to at least `low`. */
  lemma PlanStages(signals: bool, outbound: bool, engine: Option<nat>, closable: bool,
                   process: bool, proc: Option<nat>, dir: Option<nat>, killswitch: bool, low: nat)
    requires low == 0 || (low == 4 && engine.None? && proc.None?)
    ensures var plan := ReleasePlan(signals, outbound, engine, closable, process, proc, dir, killswitch);
            && Staged(plan[0].1 + plan[1].1, Max(low, 1), Max(low, 1)) && Staged(plan[2].1, Max(low, 1), Max(low, 2))
            && Staged(plan[3].1, Max(low, 2), Max(low, 3)) && Staged(plan[4].1, Max(low, 3), 4) && Staged(plan[5].1, 4, 4)
  {
    hide Staged;
    var plan := ReleasePlan(signals, outbound, engine, closable, process, proc, dir, killswitch);
    ShortStaged(plan[0].1 + plan[1].1, Max(low, 1), Max(low, 1));
    ShortStaged(plan[2].1, Max(low, 1), Max(low, 2));
    ShortStaged(plan[3].1, Max(low, 2), Max(low, 3));
    ShortStaged(plan[4].1, Max(low, 3), 4);
    ShortStaged(plan[5].1, 4, 4);
  }

  function Max(a: nat, b: nat): nat { if a < b then b else a }

  lemma FiveStages(t: seq<Effect>, a: seq<Effect>, b: seq<Effect>, c: seq<Effect>, d: seq<Effect>, e: seq<Effect>,
                   i: nat, j: nat, k: nat, l: nat)
    requires i <= j <= k <= l <= 4
    requires Staged(t, 0, i) && Staged(a, i, j) && Staged(b, j, k) && Staged(c, k, l) && Staged(d, l, 4) && Staged(e, 4, 4)
    ensures Ordered(t + a + b + c + d + e)
  {
    hide Staged;
    StagedConcat(t, a, 0, i, j);
    StagedConcat(t + a, b, 0, j, k);
    StagedConcat(t + a + b, c, 0, k, l);
    StagedConcat(t + a + b + c, d, 0, l, 4);
    StagedConcat(t + a + b + c + d, e, 0, 4, 4);
    StagedIsOrdered(t + a + b + c + d + e, 0, 4);
  }

  lemma StagedIsOrdered(es: seq<Effect>, low: nat, high: nat)
    requires Staged(es, low, high)
    ensures Ordered(es)
  {
  }
}
