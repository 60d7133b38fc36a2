/** The kernel rules of the kill switch: engine-core/src/killswitch.rs.

    A rule is an iptables command line.  Applying a ruleset runs its `-I`
    commands in order; removing it runs the commands backwards with ` -I `
    rewritten to ` -D ` in their text.  Commands act on the chains of the filter
    table: `-I` inserts at the head, `-D` deletes the first equal rule. */
module Firewall {
  import opened Text

  /** Everything after the chain name of an iptables command: matches and target. */
  type Rule = seq<string>

  /** The chains of the filter table, first rule first. */
  type Table = map<string, seq<Rule>>

  // ---- command lines ----

  /** Unicode White_Space, which `split_whitespace` splits on. */
  predicate IsSpace(c: char) {
    || '\t' <= c <= '\r' || c == ' ' || c == '\U{85}' || c == '\U{A0}' || c == '\U{1680}'
    || '\U{2000}' <= c <= '\U{200A}' || c == '\U{2028}' || c == '\U{2029}' || c == '\U{202F}'
    || c == '\U{205F}' || c == '\U{3000}'
  }

  function WordLength(s: string): (n: nat)
    ensures n <= |s| && (n < |s| ==> IsSpace(s[n]))
    ensures forall i :: 0 <= i < n ==> !IsSpace(s[i])
  {
    if s == "" || IsSpace(s[0]) then 0 else 1 + WordLength(s[1..])
  }

  /** `split_whitespace`: the arguments of a command line. */
  function Tokens(s: string): seq<string> {
    if s == "" then []
    else if IsSpace(s[0]) then Tokens(s[1..])
    else [s[..WordLength(s)]] + Tokens(s[WordLength(s)..])
  }

  predicate IsWord(w: string) {
    w != "" && forall c <- w :: !IsSpace(c)
  }

  const HEAD := ["iptables", "-t", "filter"]

  function OwnerMatch(uid: nat): seq<string> {
    ["-m", "owner", "!", "--uid-owner", Decimal(uid), "-j", "DROP"]
  }

  /** The text `format!` produces, for either operation. */
  function RuleText(op: string, chain: string, flag: string, interface: string, uid: nat): string {
    Join(HEAD + [op, chain, flag], ' ') + " " + interface + " " + Join(OwnerMatch(uid), ' ')
  }

  /** `build_killswitch_rules`: without a uid there is no ruleset. */
  function BuildKillSwitchRules(interface: string, uid: Option<nat>): Option<seq<string>> {
    match uid
    case None => None
    case Some(u) => Some([RuleText("-I", "OUTPUT", "-o", interface, u),
                          RuleText("-I", "INPUT", "-i", interface, u)])
  }

  /** `rule.replace(" -I ", " -D ")`: every non-overlapping occurrence, left to right. */
  function Rewrite(s: string): string {
    if s == "" then ""
    else if " -I " <= s then " -D " + Rewrite(s[4..])
    else [s[0]] + Rewrite(s[1..])
  }

  // ---- the filter table ----

  function RemoveFirst(rules: seq<Rule>, r: Rule): seq<Rule>
    requires r in rules
  {
    if rules[0] == r then rules[1..] else [rules[0]] + RemoveFirst(rules[1..], r)
  }

  /** One iptables run: the new table, or None for a non-zero exit status. */
  function Exec(t: Table, args: seq<string>): Option<Table> {
    if args == [] then Some(t)
    else if |args| < 5 || args[..3] != HEAD || args[4] !in t then None
    else
      var chain, rule := args[4], args[5..];
      if args[3] == "-I" then Some(t[chain := [rule] + t[chain]])
      else if args[3] == "-D" && rule in t[chain] then Some(t[chain := RemoveFirst(t[chain], rule)])
      else None
  }

  function RunAll(t: Table, commands: seq<string>): Option<Table> {
    if commands == [] then Some(t)
    else match Exec(t, Tokens(commands[0]))
      case None => None
      case Some(u) => RunAll(u, commands[1..])
  }

  /** The commands `remove_ruleset` issues: backwards, rewritten. */
  function RemovalCommands(rules: seq<string>): (r: seq<string>)
    ensures |r| == |rules|
    ensures forall i :: 0 <= i < |r| ==> r[i] == Rewrite(rules[|rules| - 1 - i])
  {
    if rules == [] then [] else [Rewrite(rules[|rules| - 1])] + RemovalCommands(rules[..|rules| - 1])
  }

  /** A RuleExecutor over a table.  Any command may fail without effect; a reliable
      executor fails only where iptables itself has to. */
  class RuleExecutor {
    const reliable: bool
    var table: Table

    constructor (table: Table, reliable: bool)
      ensures this.table == table && this.reliable == reliable
    {
      this.table, this.reliable := table, reliable;
    }

    method Execute(command: string) returns (ok: bool)
      modifies this
      ensures ok ==> Exec(old(table), Tokens(command)) == Some(table)
      ensures !ok ==> table == old(table)
      ensures Tokens(command) == [] ==> table == old(table) && (reliable ==> ok)
      ensures reliable && Exec(old(table), Tokens(command)).Some? ==> ok
    {
      var result := Exec(table, Tokens(command));
      var fault: bool := *;
      ok := (reliable || !fault) && result.Some?;
      if ok { table := result.value; }
    }
  }

  /** An error leaves exactly a strict prefix of the ruleset applied. */
  method ApplyRuleset(rules: seq<string>, executor: RuleExecutor) returns (ok: bool, ghost done: nat)
    modifies executor
    ensures done <= |rules| && (ok <==> done == |rules|)
    ensures RunAll(old(executor.table), rules[..done]) == Some(executor.table)
    ensures executor.reliable && RunAll(old(executor.table), rules).Some? ==> ok
  {
    done := 0;
    for i := 0 to |rules|
      invariant done == i
      invariant RunAll(old(executor.table), rules[..i]) == Some(executor.table)
    {
      ghost var before := executor.table;
      ok := executor.Execute(rules[i]);
      if RunAll(old(executor.table), rules).Some? { RunPrefix(old(executor.table), rules, i); }
      if !ok { return; }
      RunOneMore(old(executor.table), rules[..i], rules[i]);
      assert rules[..i] + [rules[i]] == rules[..i + 1];
      done := done + 1;
    }
    ok := true;
  }

  /** An error means that only a strict part of the removal commands ran. */
  method RemoveRuleset(rules: seq<string>, executor: RuleExecutor) returns (ok: bool, ghost done: nat)
    modifies executor
    ensures done <= |rules| && (ok <==> done == |rules|)
    ensures RunAll(old(executor.table), RemovalCommands(rules)[..done]) == Some(executor.table)
    ensures executor.reliable && RunAll(old(executor.table), RemovalCommands(rules)).Some? ==> ok
    // A sound executor stops only at a command that cannot run.
    ensures executor.reliable && !ok ==> RunAll(old(executor.table), RemovalCommands(rules)[..done + 1]).None?
  {
    done := 0;
    var i := |rules|;
    ghost var removal := RemovalCommands(rules);
    while i > 0
      invariant 0 <= i <= |rules| && done == |rules| - i
      invariant RunAll(old(executor.table), removal[..done]) == Some(executor.table)
    {
      var deleteRule := Rewrite(rules[i - 1]);
      ok := executor.Execute(deleteRule);
      if RunAll(old(executor.table), removal).Some? { RunPrefix(old(executor.table), removal, done); }
      RunOneMore(old(executor.table), removal[..done], deleteRule);
      assert removal[..done] + [deleteRule] == removal[..done + 1];
      if !ok { return; }
      i := i - 1;
      done := done + 1;
    }
    ok := true;
  }

  /** The first n rules for an interface and uid stand on top of `under`. */
  ghost predicate InForce(under: Table, interface: string, uid: Option<nat>, n: nat, table: Table) {
    if n == 0 then table == under
    else n <= 2 && uid.Some? && RunAll(under, BuildKillSwitchRules(interface, uid).value[..n]) == Some(table)
  }

  /** The first n removal commands turned `before` into `after`. */
  ghost predicate Removed(before: Table, interface: string, uid: Option<nat>, n: nat, after: Table) {
    if n == 0 then after == before
    else n <= 2 && uid.Some? && RunAll(before, RemovalCommands(BuildKillSwitchRules(interface, uid).value)[..n]) == Some(after)
  }

  ghost predicate Appliable(table: Table, interface: string, uid: Option<nat>) {
    uid.Some? && RunAll(table, BuildKillSwitchRules(interface, uid).value).Some?
  }

  ghost predicate FullyRemovable(table: Table, interface: string, uid: Option<nat>) {
    uid.Some? && RunAll(table, RemovalCommands(BuildKillSwitchRules(interface, uid).value)).Some?
  }

  /** Whether the first command of a removal finds its rule. */
  ghost predicate Removable(table: Table, interface: string, uid: Option<nat>) {
    uid.Some? && Exec(table, Tokens(RemovalCommands(BuildKillSwitchRules(interface, uid).value)[0])).Some?
  }

  /** `apply_killswitch_rules`: a missing uid is an error before any command. */
  method ApplyKillSwitchRules(interface: string, uid: Option<nat>, executor: RuleExecutor)
    returns (ok: bool, ghost done: nat)
    modifies executor
    ensures done <= 2 && (ok <==> done == 2) && (uid.None? ==> done == 0)
    ensures InForce(old(executor.table), interface, uid, done, executor.table)
    ensures ok ==> Appliable(old(executor.table), interface, uid)
    ensures executor.reliable && Appliable(old(executor.table), interface, uid) ==> ok
  {
    var rules := BuildKillSwitchRules(interface, uid);
    if rules.None? { return false, 0; }
    ok, done := ApplyRuleset(rules.value, executor);
    assert rules.value[..2] == rules.value;
    if done == 0 { assert rules.value[..0] == []; }
  }

  /** `remove_killswitch_rules` */
  method RemoveKillSwitchRules(interface: string, uid: Option<nat>, executor: RuleExecutor)
    returns (ok: bool, ghost done: nat)
    modifies executor
    ensures done <= 2 && (ok <==> done == 2) && (uid.None? ==> done == 0)
    ensures Removed(old(executor.table), interface, uid, done, executor.table)
    ensures done > 0 ==> Removable(old(executor.table), interface, uid)
    ensures ok ==> FullyRemovable(old(executor.table), interface, uid)
    ensures executor.reliable && Removable(old(executor.table), interface, uid) ==> done >= 1
    ensures executor.reliable && FullyRemovable(old(executor.table), interface, uid) ==> ok
  {
    var rules := BuildKillSwitchRules(interface, uid);
    if rules.None? { return false, 0; }
    ok, done := RemoveRuleset(rules.value, executor);
    ghost var removal := RemovalCommands(rules.value);
    assert removal[..2] == removal && removal[..1] == [removal[0]] && removal[..1][1..] == [];
    if done == 0 { assert removal[..0] == []; } else { assert removal[..done][0] == removal[0]; }
  }

  // ---- running command lists ----

  lemma {:induction false} RunAllAppend(t: Table, a: seq<string>, b: seq<string>)
    ensures RunAll(t, a + b) ==
            if RunAll(t, a).None? then None else RunAll(RunAll(t, a).value, b)
  {
    if a == [] {
      assert a + b == b;
    } else {
      assert (a + b)[0] == a[0] && (a + b)[1..] == a[1..] + b;
      var first := Exec(t, Tokens(a[0]));
      if first.Some? { RunAllAppend(first.value, a[1..], b); }
    }
  }

  lemma RunOneMore(t: Table, a: seq<string>, command: string)
    ensures RunAll(t, a + [command]) ==
            if RunAll(t, a).None? then None else Exec(RunAll(t, a).value, Tokens(command))
  {
    RunAllAppend(t, a, [command]);
    if RunAll(t, a).Some? {
      var next := Exec(RunAll(t, a).value, Tokens(command));
      assert [command][1..] == [];
    }
  }

  /** If a whole list runs, so does each command after those before it. */
  lemma RunPrefix(t: Table, commands: seq<string>, k: nat)
    requires k < |commands| && RunAll(t, commands).Some?
    ensures RunAll(t, commands[..k]).Some? && Exec(RunAll(t, commands[..k]).value, Tokens(commands[k])).Some?
  {
    assert commands == commands[..k] + commands[k..] && commands[k..][0] == commands[k];
    RunAllAppend(t, commands[..k], commands[k..]);
  }

  /** An insert command whose rewritten text is the matching delete. */
  ghost predicate IsUndoableInsert(command: string) {
    var args := Tokens(command);
    |args| >= 5 && args[..3] == HEAD && args[3] == "-I" && Tokens(Rewrite(command)) == args[3 := "-D"]
  }

  lemma InsertThenDelete(t: Table, command: string)
    requires IsUndoableInsert(command) && Exec(t, Tokens(command)).Some?
    ensures Exec(Exec(t, Tokens(command)).value, Tokens(Rewrite(command))) == Some(t)
  {
    var ins, del := Tokens(command), Tokens(Rewrite(command));
    var chain, rule := ins[4], ins[5..];
    assert del[..3] == HEAD && del[5..] == rule;
    assert ([rule] + t[chain])[1..] == t[chain];
    assert t[chain := [rule] + t[chain]][chain := t[chain]] == t;
  }

  /** After removing the last j of k applied rules, exactly the first k - j are in
      force: in particular removing all of them restores the table, duplicates and all,
      and a removal that stops early took away only a suffix. */
  lemma {:induction false} RemovalUndoes(t: Table, rules: seq<string>, j: nat)
    requires forall r <- rules :: IsUndoableInsert(r)
    requires RunAll(t, rules).Some? && j <= |rules|
    ensures RunAll(RunAll(t, rules).value, RemovalCommands(rules)[..j]) == RunAll(t, rules[..|rules| - j])
    ensures RunAll(t, rules[..|rules| - j]).Some?
  {
    hide Tokens, Rewrite, Exec;
    if j == 0 {
      assert rules[..|rules|] == rules;
    } else {
      var last, front := rules[|rules| - 1], rules[..|rules| - 1];
      assert rules == front + [last] && last in rules;
      RunOneMore(t, front, last);
      InsertThenDelete(RunAll(t, front).value, last);
      forall r <- front ensures IsUndoableInsert(r) { assert r in rules; }
      RemovalUndoes(t, front, j - 1);
      var removal := RemovalCommands(rules)[..j];
      assert removal[0] == Rewrite(last) && removal[1..] == RemovalCommands(front)[..j - 1];
      assert front[..|front| - (j - 1)] == rules[..|rules| - j];
      assert Exec(RunAll(t, rules).value, Tokens(removal[0])) == RunAll(t, front);
    }
  }

  /** `apply_ruleset` then `remove_ruleset`, for any table and any undoable ruleset. */
  lemma ApplyThenRemoveRestores(t: Table, rules: seq<string>)
    requires forall r <- rules :: IsUndoableInsert(r)
    requires RunAll(t, rules).Some?
    ensures RunAll(RunAll(t, rules).value, RemovalCommands(rules)) == Some(t)
  {
    RemovalUndoes(t, rules, |rules|);
    assert RemovalCommands(rules)[..|rules|] == RemovalCommands(rules);
  }
}
