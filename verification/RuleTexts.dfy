/** What the kill-switch rule texts mean: the textual rewrite really names the
    inserted rule, and the inserted rules drop exactly the foreign traffic. */
module RuleTexts {
  import opened Text
  import opened Firewall

  // ---- tokens ----

  lemma {:induction false} WordLengthStops(a: string, b: string)
    ensures WordLength(a + " " + b) == WordLength(a)
  {
    var s := a + " " + b;
    if a == "" {
      assert s[0] == ' ';
    } else {
      assert s[0] == a[0] && s[1..] == a[1..] + " " + b;
      WordLengthStops(a[1..], b);
    }
  }

  lemma {:induction false} TokensAppend(a: string, b: string)
    ensures Tokens(a + " " + b) == Tokens(a) + Tokens(b)
    decreases |a|
  {
    hide WordLength;
    var s := a + " " + b;
    if a == "" {
      assert s[0] == ' ' && s[1..] == b;
    } else if IsSpace(a[0]) {
      assert s[0] == a[0] && s[1..] == a[1..] + " " + b;
      TokensAppend(a[1..], b);
    } else {
      WordLengthStops(a, b);
      var n := WordLength(a);
      assert s[0] == a[0] && s[..n] == a[..n] && s[n..] == a[n..] + " " + b;
      TokensAppend(a[n..], b);
    }
  }

  lemma {:induction false} WordLengthFull(w: string)
    requires forall c <- w :: !IsSpace(c)
    ensures WordLength(w) == |w|
  {
    if w != "" {
      assert w[0] in w;
      forall c <- w[1..] ensures !IsSpace(c) { assert c in w; }
      WordLengthFull(w[1..]);
    }
  }

  lemma TokensWord(w: string)
    requires IsWord(w)
    ensures Tokens(w) == [w]
  {
    WordLengthFull(w);
    assert w[0] in w;
    assert w[..|w|] == w && w[|w|..] == "";
  }

  lemma {:induction false} TokensJoin(words: seq<string>)
    requires |words| > 0 && forall w <- words :: IsWord(w)
    ensures Tokens(Join(words, ' ')) == words
  {
    assert words[0] in words;
    TokensWord(words[0]);
    if |words| > 1 {
      forall w <- words[1..] ensures IsWord(w) { assert w in words; }
      TokensJoin(words[1..]);
      assert Join(words, ' ') == words[0] + " " + Join(words[1..], ' ');
      TokensAppend(words[0], Join(words[1..], ' '));
    }
  }

  lemma DecimalIsWord(n: nat)
    ensures IsWord(Decimal(n)) && ' ' !in Decimal(n) && Decimal(n) != "-I"
  {
    var s := Decimal(n);
    forall c <- s ensures !IsSpace(c) && c != '-' {
      assert c in DIGITS;
    }
    assert s[0] in s;
  }

  predicate PlainWord(w: string) {
    IsWord(w) && ' ' !in w
  }

  lemma ShiftFlag<T>(head: seq<T>, op: T, chain: T, flag: T, middle: seq<T>, tail: seq<T>)
    ensures head + [op, chain, flag] + middle + tail == head + [op, chain] + ([flag] + middle + tail)
  {
  }

  lemma FixedWords(uid: nat)
    ensures forall w <- HEAD :: IsWord(w)
    ensures forall w <- OwnerMatch(uid) :: IsWord(w)
  {
    DecimalIsWord(uid);
  }

  lemma {:induction false} TokensAround(head: seq<string>, interface: string, tail: seq<string>)
    requires |head| > 0 && |tail| > 0
    requires (forall w <- head :: IsWord(w)) && (forall w <- tail :: IsWord(w))
    ensures Tokens(Join(head, ' ') + " " + interface + " " + Join(tail, ' ')) == head + Tokens(interface) + tail
  {
    var h, t := Join(head, ' '), Join(tail, ' ');
    TokensJoin(head);
    TokensJoin(tail);
    TokensAppend(h + " " + interface, t);
    TokensAppend(h, interface);
  }

  /** The arguments iptables receives, whatever white space the interface holds. */
  lemma RuleTokens(op: string, chain: string, flag: string, interface: string, uid: nat)
    requires IsWord(op) && IsWord(chain) && IsWord(flag)
    ensures Tokens(RuleText(op, chain, flag, interface, uid)) ==
            HEAD + [op, chain] + ([flag] + Tokens(interface) + OwnerMatch(uid))
  {
    var head, tail := HEAD + [op, chain, flag], OwnerMatch(uid);
    FixedWords(uid);
    forall w <- head ensures IsWord(w) { assert w in HEAD || w in [op, chain, flag]; }
    TokensAround(head, interface, tail);
    ShiftFlag(HEAD, op, chain, flag, Tokens(interface), tail);
  }

  // ---- the textual rewrite, word by word ----

  /** Rewrite on space-separated words: a "-I" counts when a space on either side
      is still there to be matched. */
  function RewriteWords(words: seq<string>, spaceBefore: bool): (r: seq<string>)
    ensures |r| == |words|
  {
    if words == [] then []
    else if spaceBefore && words[0] == "-I" && |words| > 1 then ["-D"] + RewriteWords(words[1..], false)
    else [words[0]] + RewriteWords(words[1..], true)
  }

  lemma {:induction false} RewriteSkipsWord(w: string, tail: string)
    requires ' ' !in w
    ensures Rewrite(w + tail) == w + Rewrite(tail)
  {
    if w == "" {
      assert w + tail == tail;
    } else {
      var s := w + tail;
      assert s[0] == w[0] && s[1..] == w[1..] + tail && w == [w[0]] + w[1..];
      RewriteSkipsWord(w[1..], tail);
      assert w[0] in w;
    }
  }

  lemma RewriteWord(w: string)
    requires ' ' !in w
    ensures Rewrite(w) == w
  {
    RewriteSkipsWord(w, "");
    assert w + "" == w;
  }

  /** Where the blank before a word is matched: only by a complete " -I ". */
  lemma BlankMatches(w: string, more: seq<string>)
    requires ' ' !in w
    ensures " -I " <= " " + Join([w] + more, ' ') <==> w == "-I" && more != []
  {
    var text := Join([w] + more, ' ');
    var s := " " + text;
    assert ([w] + more)[1..] == more;
    assert forall i :: 0 <= i < |w| ==> text[i] == w[i] && s[i + 1] == w[i] && w[i] != ' ';
    assert if more == [] then |text| == |w| else |text| > |w| && text[|w|] == ' ' && s[|w| + 1] == ' ';
    if " -I " <= s {
      assert s[1] == '-' && s[2] == 'I' && s[3] == ' ';
      assert |w| == 2;
      assert w == [w[0], w[1]];
    }
  }

  lemma BlankKept(text: string)
    requires !(" -I " <= " " + text)
    ensures Rewrite(" " + text) == " " + Rewrite(text)
  {
    assert (" " + text)[1..] == text;
  }

  lemma BlankMatched(rest: string)
    ensures Rewrite(" " + ("-I" + " " + rest)) == " " + ("-D" + " " + Rewrite(rest))
  {
    var s := " " + ("-I" + " " + rest);
    assert s == " -I " + rest && s[4..] == rest;
    assert " -D " + Rewrite(rest) == " " + ("-D" + " " + Rewrite(rest));
  }

  lemma {:induction false} RewriteJoin(words: seq<string>)
    requires |words| > 0 && NoneContains(words, ' ')
    ensures Rewrite(Join(words, ' ')) == Join(RewriteWords(words, false), ' ')
    ensures Rewrite(" " + Join(words, ' ')) == " " + Join(RewriteWords(words, true), ' ')
    decreases |words|
  {
    var w, more := words[0], words[1..];
    assert words == [w] + more && w in words;
    RewriteJoinFirst(w, more);
    BlankMatches(w, more);
    if w == "-I" && more != [] {
      NoneContainsTail(words, ' ');
      RewriteJoin(more);
      BlankMatched(Join(more, ' '));
      var r := RewriteWords(words, true);
      assert r[0] == "-D" && r[1..] == RewriteWords(more, false);
    } else {
      BlankKept(Join(words, ' '));
    }
  }

  /** The first word has no blank before it and is kept. */
  lemma RewriteJoinFirst(w: string, more: seq<string>)
    requires NoneContains([w] + more, ' ')
    ensures Rewrite(Join([w] + more, ' ')) == Join([w] + RewriteWords(more, true), ' ')
    decreases |more| + 1, 0
  {
    hide Rewrite;
    var words := [w] + more;
    assert w in words && words[1..] == more;
    if more == [] {
      RewriteWord(w);
    } else {
      NoneContainsTail(words, ' ');
      RewriteJoin(more);
      RewriteSkipsWord(w, " " + Join(more, ' '));
      assert Join(words, ' ') == w + (" " + Join(more, ' '));
      var r := [w] + RewriteWords(more, true);
      assert r[1..] == RewriteWords(more, true);
      assert Join(r, ' ') == w + (" " + Join(r[1..], ' '));
    }
  }

  lemma NoneContainsTail(words: seq<string>, sep: char)
    requires |words| > 0 && NoneContains(words, sep)
    ensures NoneContains(words[1..], sep)
  {
    forall p <- words[1..] ensures sep !in p { assert p in words; }
  }

  lemma {:induction false} RewriteWordsUnchanged(words: seq<string>, last: string, spaceBefore: bool)
    ensures "-I" !in words ==> RewriteWords(words + [last], spaceBefore) == words + [last]
    ensures "-I" in words && spaceBefore ==> RewriteWords(words + [last], true) != words + [last]
  {
    if words != [] {
      var all := words + [last];
      assert all[0] == words[0] && all[1..] == words[1..] + [last];
      RewriteWordsUnchanged(words[1..], last, true);
      assert words == [words[0]] + words[1..];
      if words[0] == "-I" && spaceBefore { assert RewriteWords(all, true)[0] == "-D"; }
      else { assert RewriteWords(all, spaceBefore)[1..] == RewriteWords(all[1..], true); }
    }
  }

  lemma KeepWord(w: string, more: seq<string>, spaceBefore: bool)
    requires !spaceBefore || w != "-I"
    ensures RewriteWords([w] + more, spaceBefore) == [w] + RewriteWords(more, true)
  {
    assert ([w] + more)[1..] == more;
  }

  lemma Regroup<T>(a: T, b: T, c: T, d: T, e: T, f: T, more: seq<T>)
    ensures [a, b, c] + [d, e, f] + more == [a] + ([b] + ([c] + ([d] + ([e] + ([f] + more)))))
  {
  }

  /** Taking the first fixed words off the rewrite of a whole rule text. */
  lemma RewriteHead(chain: string, flag: string, more: seq<string>)
    requires chain != "-I" && flag != "-I" && |more| > 0
    ensures RewriteWords(HEAD + ["-I", chain, flag] + more, false) ==
            HEAD + ["-D", chain, flag] + RewriteWords(more, true)
  {
    KeepWord(flag, more, true);
    var w2 := [chain] + ([flag] + more);
    KeepWord(chain, [flag] + more, false);
    var w3 := ["-I"] + w2;
    assert w3[1..] == w2;
    KeepWord("filter", w3, true);
    KeepWord("-t", ["filter"] + w3, true);
    KeepWord("iptables", ["-t"] + (["filter"] + w3), false);
    Regroup("iptables", "-t", "filter", "-I", chain, flag, more);
    Regroup("iptables", "-t", "filter", "-D", chain, flag, RewriteWords(more, true));
  }

  lemma RuleWords(op: string, chain: string, flag: string, interface: string, uid: nat)
    requires PlainWord(op) && PlainWord(chain) && PlainWord(flag)
    ensures var words := HEAD + [op, chain, flag] + (Split(interface, ' ') + OwnerMatch(uid));
            RuleText(op, chain, flag, interface, uid) == Join(words, ' ') && NoneContains(words, ' ')
  {
    hide Split, Decimal, Join;
    var head, middle, tail := HEAD + [op, chain, flag], Split(interface, ' '), OwnerMatch(uid);
    JoinSplit(interface, ' ');
    SplitHasNoSeparator(interface, ' ');
    DecimalIsWord(uid);
    JoinAppend(head, middle + tail, ' ');
    JoinAppend(middle, tail, ' ');
    assert Join(head, ' ') + " " + (interface + " " + Join(tail, ' ')) == RuleText(op, chain, flag, interface, uid);
    forall p <- head + (middle + tail) ensures ' ' !in p {
      assert p in head || p in middle || p in tail;
    }
  }

  /** The rewritten text is the text of the matching delete command exactly when no
      space-separated piece of the interface reads "-I". */
  lemma RewriteIsMatchingDelete(chain: string, flag: string, interface: string, uid: nat)
    requires PlainWord(chain) && PlainWord(flag) && chain != "-I" && flag != "-I"
    ensures Rewrite(RuleText("-I", chain, flag, interface, uid)) == RuleText("-D", chain, flag, interface, uid)
       <==> "-I" !in Split(interface, ' ')
  {
    hide Split, Rewrite, RuleText, Decimal;
    var more := Split(interface, ' ') + OwnerMatch(uid);
    var words := HEAD + ["-I", chain, flag] + more;
    var wanted := HEAD + ["-D", chain, flag] + more;
    RuleWords("-I", chain, flag, interface, uid);
    RuleWords("-D", chain, flag, interface, uid);
    RewriteJoin(words);
    RewriteHead(chain, flag, more);
    var got := RewriteWords(words, false);
    DecimalIsWord(uid);
    var inner := Split(interface, ' ') + OwnerMatch(uid)[..6];
    assert more == inner + ["DROP"];
    RewriteWordsUnchanged(inner, "DROP", true);
    assert "-I" in inner <==> "-I" in Split(interface, ' ');
    if got != wanted {
      RewriteWordsNoSpace(words, false);
      if Join(got, ' ') == Join(wanted, ' ') {
        SplitJoin(got, ' ');
        SplitJoin(wanted, ' ');
        assert false;
      }
    }
    assert got == wanted <==> RewriteWords(more, true) == more by {
      assert got[6..] == RewriteWords(more, true) && wanted[6..] == more;
    }
  }

  lemma {:induction false} RewriteWordsNoSpace(words: seq<string>, spaceBefore: bool)
    requires NoneContains(words, ' ')
    ensures NoneContains(RewriteWords(words, spaceBefore), ' ')
  {
    if words != [] {
      assert words[0] in words;
      assert NoneContains(words[1..], ' ') by { forall p <- words[1..] ensures ' ' !in p { assert p in words; } }
      RewriteWordsNoSpace(words[1..], true);
      RewriteWordsNoSpace(words[1..], false);
      forall p <- RewriteWords(words, spaceBefore) ensures ' ' !in p {
        assert p == "-D" || p == words[0] || p in RewriteWords(words[1..], true) || p in RewriteWords(words[1..], false);
      }
    }
  }

  /** Both kill-switch rules can be undone, for every interface without a "-I" piece. */
  lemma KillSwitchRulesUndoable(interface: string, uid: nat)
    requires "-I" !in Split(interface, ' ')
    ensures forall r <- BuildKillSwitchRules(interface, Some(uid)).value :: IsUndoableInsert(r)
  {
    UndoableRule("OUTPUT", "-o", interface, uid);
    UndoableRule("INPUT", "-i", interface, uid);
  }

  /** Taking n rules of a full ruleset back leaves the other 2 - n in force. */
  lemma RemovalLeavesPrefix(under: Table, interface: string, uid: Option<nat>, full: Table, n: nat, after: Table)
    requires "-I" !in Split(interface, ' ')
    requires InForce(under, interface, uid, 2, full) && n <= 2 && Removed(full, interface, uid, n, after)
    ensures InForce(under, interface, uid, 2 - n, after)
  {
    var rules := BuildKillSwitchRules(interface, uid).value;
    KillSwitchRulesUndoable(interface, uid.value);
    assert rules[..2] == rules;
    RemovalUndoes(under, rules, n);
    assert RemovalCommands(rules)[..0] == [] && rules[..0] == [];
  }

  /** A full ruleset can always be taken back. */
  lemma FullRulesetRemovable(under: Table, interface: string, uid: Option<nat>, full: Table)
    requires "-I" !in Split(interface, ' ') && InForce(under, interface, uid, 2, full)
    ensures FullyRemovable(full, interface, uid)
  {
    var rules := BuildKillSwitchRules(interface, uid).value;
    KillSwitchRulesUndoable(interface, uid.value);
    assert rules[..2] == rules;
    ApplyThenRemoveRestores(under, rules);
  }

  function InputRule(interface: string, uid: nat): Rule {
    ["-i"] + Tokens(interface) + OwnerMatch(uid)
  }

  function OutputRule(interface: string, uid: nat): Rule {
    ["-o"] + Tokens(interface) + OwnerMatch(uid)
  }

  /** What one rewritten command does: delete the first copy of its rule, if there is one. */
  lemma DeleteRule(t: Table, chain: string, flag: string, interface: string, uid: nat)
    requires PlainWord(chain) && PlainWord(flag) && chain != "-I" && flag != "-I" && "-I" !in Split(interface, ' ')
    ensures var rule := [flag] + Tokens(interface) + OwnerMatch(uid);
            Exec(t, Tokens(Rewrite(RuleText("-I", chain, flag, interface, uid)))) ==
            if chain in t && rule in t[chain] then Some(t[chain := RemoveFirst(t[chain], rule)]) else None
  {
    hide Split, Rewrite, RuleText, Tokens;
    var rule := [flag] + Tokens(interface) + OwnerMatch(uid);
    RewriteIsMatchingDelete(chain, flag, interface, uid);
    RuleTokens("-D", chain, flag, interface, uid);
    var args := HEAD + ["-D", chain] + rule;
    assert args[..3] == HEAD && args[3] == "-D" && args[4] == chain && args[5..] == rule;
  }

  /** A removal can begin exactly when the INPUT chain holds a copy of the INPUT rule. */
  lemma RemovableIffInstalled(t: Table, interface: string, uid: nat)
    requires "-I" !in Split(interface, ' ')
    ensures Removable(t, interface, Some(uid)) <==> "INPUT" in t && InputRule(interface, uid) in t["INPUT"]
  {
    hide Rewrite, RuleText, Tokens, Split;
    DeleteRule(t, "INPUT", "-i", interface, uid);
  }

  /** And it can be completed exactly when both chains hold a copy of their rule. */
  lemma FullyRemovableIffInstalled(t: Table, interface: string, uid: nat)
    requires "-I" !in Split(interface, ' ')
    ensures FullyRemovable(t, interface, Some(uid)) <==>
            && "INPUT" in t && InputRule(interface, uid) in t["INPUT"]
            && "OUTPUT" in t && OutputRule(interface, uid) in t["OUTPUT"]
  {
    hide Rewrite, RuleText, Tokens, Split, InputRule, OutputRule, Exec;
    TwoRemovals(t, interface, uid);
    InstalledRules(t, interface, uid);
    if "INPUT" in t && InputRule(interface, uid) in t["INPUT"] {
      InstalledRules(t["INPUT" := RemoveFirst(t["INPUT"], InputRule(interface, uid))], interface, uid);
    }
  }

  lemma InstalledRules(t: Table, interface: string, uid: nat)
    requires "-I" !in Split(interface, ' ')
    ensures var rules := BuildKillSwitchRules(interface, Some(uid)).value;
            && Exec(t, Tokens(Rewrite(rules[1]))) ==
               (if "INPUT" in t && InputRule(interface, uid) in t["INPUT"]
                then Some(t["INPUT" := RemoveFirst(t["INPUT"], InputRule(interface, uid))]) else None)
            && Exec(t, Tokens(Rewrite(rules[0]))) ==
               (if "OUTPUT" in t && OutputRule(interface, uid) in t["OUTPUT"]
                then Some(t["OUTPUT" := RemoveFirst(t["OUTPUT"], OutputRule(interface, uid))]) else None)
  {
    hide Rewrite, RuleText, Tokens, Split;
    DeleteRule(t, "INPUT", "-i", interface, uid);
    DeleteRule(t, "OUTPUT", "-o", interface, uid);
  }

  /** The removal is the INPUT command and then the OUTPUT command. */
  lemma TwoRemovals(t: Table, interface: string, uid: nat)
    ensures var rules := BuildKillSwitchRules(interface, Some(uid)).value;
            && RemovalCommands(rules) == [Rewrite(rules[1]), Rewrite(rules[0])]
            && RunAll(t, RemovalCommands(rules)) ==
               (match Exec(t, Tokens(Rewrite(rules[1])))
                case None => None
                case Some(u) => Exec(u, Tokens(Rewrite(rules[0]))))
            && RunAll(t, RemovalCommands(rules)[..1]) == Exec(t, Tokens(Rewrite(rules[1])))
  {
    hide Rewrite, RuleText, Tokens, Exec;
    var rules := BuildKillSwitchRules(interface, Some(uid)).value;
    var removal := RemovalCommands(rules);
    assert removal == [Rewrite(rules[1]), Rewrite(rules[0])];
    assert removal[..1] == [removal[0]] && removal[..1][1..] == [] && removal == removal[..1] + [Rewrite(rules[0])];
    RunOneMore(t, removal[..1], Rewrite(rules[0]));
  }

  /** Whatever the interface, the removal commands are deletes on the two chains. */
  lemma RemovalShape(chain: string, flag: string, interface: string, uid: nat)
    requires PlainWord(chain) && PlainWord(flag) && chain != "-I" && flag != "-I"
    ensures var args := Tokens(Rewrite(RuleText("-I", chain, flag, interface, uid)));
            IsDelete(args) && args[4] == chain
  {
    hide Split, Rewrite, RuleText, Decimal;
    var more := Split(interface, ' ') + OwnerMatch(uid);
    var head, tail := HEAD + ["-D", chain, flag], RewriteWords(more, true);
    RuleWords("-I", chain, flag, interface, uid);
    RewriteJoin(HEAD + ["-I", chain, flag] + more);
    RewriteHead(chain, flag, more);
    assert HEAD + ["-I", chain, flag] + more == HEAD + ["-I", chain, flag] + (Split(interface, ' ') + OwnerMatch(uid));
    JoinAppend(head, tail, ' ');
    TokensAppend(Join(head, ' '), Join(tail, ' '));
    FixedWords(uid);
    forall w <- head ensures IsWord(w) { assert w in HEAD || w in ["-D", chain, flag]; }
    TokensJoin(head);
    assert Join(head, ' ') + [' '] + Join(tail, ' ') == Join(head, ' ') + " " + Join(tail, ' ');
    var args := head + Tokens(Join(tail, ' '));
    assert args[..3] == HEAD && args[3] == "-D" && args[4] == chain;
  }

  predicate IsDelete(args: seq<string>) {
    |args| > 5 && args[..3] == HEAD && args[3] == "-D"
  }

  /** A delete on one chain leaves the others, and so deletes on them, as they were. */
  lemma OtherDelete(t: Table, a: seq<string>, b: seq<string>, u: Table)
    requires IsDelete(a) && IsDelete(b) && a[4] != b[4] && Exec(t, a) == Some(u)
    ensures Exec(u, b).Some? <==> Exec(t, b).Some?
    ensures u - {a[4]} == t - {a[4]}
  {
  }

  /** A removal that cannot be completed cannot be completed after its first command either,
      and only the INPUT chain has changed. */
  lemma StillNotRemovable(before: Table, interface: string, uid: Option<nat>, n: nat, after: Table)
    requires n < 2 && Removed(before, interface, uid, n, after) && !FullyRemovable(before, interface, uid)
    ensures !FullyRemovable(after, interface, uid)
    ensures after - {"INPUT"} == before - {"INPUT"} && (n == 0 ==> after == before)
  {
    if n == 0 {
      assert after == before;
    } else {
      var a, b := RemovalArgs(interface, uid.value);
      RemovalStep(before, interface, uid.value);
      RemovalStep(after, interface, uid.value);
      assert Exec(before, a) == Some(after) by { assert Removed(before, interface, uid, 1, after); }
      hide Removed, FullyRemovable, Exec;
      OtherDelete(before, a, b, after);
      if Exec(after, a).Some? { OtherDelete(after, a, b, Exec(after, a).value); }
    }
  }

  /** The arguments of the two removal commands. */
  lemma RemovalArgs(interface: string, uid: nat) returns (a: seq<string>, b: seq<string>)
    ensures var rules := BuildKillSwitchRules(interface, Some(uid)).value;
            a == Tokens(Rewrite(rules[1])) && b == Tokens(Rewrite(rules[0]))
    ensures IsDelete(a) && IsDelete(b) && a[4] == "INPUT" && b[4] == "OUTPUT"
  {
    hide Rewrite, RuleText, Tokens;
    RemovalShape("INPUT", "-i", interface, uid);
    RemovalShape("OUTPUT", "-o", interface, uid);
    var rules := BuildKillSwitchRules(interface, Some(uid)).value;
    a, b := Tokens(Rewrite(rules[1])), Tokens(Rewrite(rules[0]));
  }

  lemma RemovalStep(t: Table, interface: string, uid: nat)
    ensures var rules := BuildKillSwitchRules(interface, Some(uid)).value;
            var a, b := Tokens(Rewrite(rules[1])), Tokens(Rewrite(rules[0]));
            && (FullyRemovable(t, interface, Some(uid)) <==> Exec(t, a).Some? && Exec(Exec(t, a).value, b).Some?)
            && (forall u :: Removed(t, interface, Some(uid), 1, u) <==> Exec(t, a) == Some(u))
  {
    hide Rewrite, RuleText, Tokens, Exec, RunAll, RemovalCommands;
    TwoRemovals(t, interface, uid);
  }

  lemma PlainRules(interface: string, uid: nat)
    requires IsWord(interface)
    ensures InputRule(interface, uid) == ["-i", interface] + OwnerMatch(uid)
    ensures OutputRule(interface, uid) == ["-o", interface] + OwnerMatch(uid)
  {
    TokensWord(interface);
    assert ["-i"] + [interface] == ["-i", interface] && ["-o"] + [interface] == ["-o", interface];
  }

  lemma SplitWord(w: string)
    requires IsWord(w) && w != "-I"
    ensures "-I" !in Split(w, ' ')
  {
    SplitPrefix(w, "", ' ');
  }

  lemma UndoableRule(chain: string, flag: string, interface: string, uid: nat)
    requires PlainWord(chain) && PlainWord(flag) && chain != "-I" && flag != "-I"
    requires "-I" !in Split(interface, ' ')
    ensures IsUndoableInsert(RuleText("-I", chain, flag, interface, uid))
  {
    hide Split, Rewrite, RuleText, Decimal, Tokens;
    RewriteIsMatchingDelete(chain, flag, interface, uid);
    var rule := [flag] + Tokens(interface) + OwnerMatch(uid);
    var command := RuleText("-I", chain, flag, interface, uid);
    assert Tokens(command) == HEAD + ["-I", chain] + rule by { RuleTokens("-I", chain, flag, interface, uid); }
    assert Tokens(Rewrite(command)) == HEAD + ["-D", chain] + rule by { RuleTokens("-D", chain, flag, interface, uid); }
    assert (HEAD + ["-I", chain] + rule)[3 := "-D"] == HEAD + ["-D", chain] + rule;
  }

  // ---- what the rules do to traffic ----

  /** A packet on a chain: the interface it leaves (OUTPUT) or enters (INPUT) by,
      and the uid owning its socket, if any. */
  datatype Packet = Packet(interface: string, owner: Option<nat>)

  datatype Verdict = Accept | Drop

  /** First match wins; the chain's policy applies when nothing matches.  `other`
      interprets the rules that are not kill-switch rules. */
  function Filter(rules: seq<Rule>, flag: string, p: Packet, other: (Rule, Packet) -> Option<Verdict>,
                  policy: Verdict): Verdict {
    if rules == [] then policy
    else match Fires(rules[0], flag, p, other)
      case Some(v) => v
      case None => Filter(rules[1..], flag, p, other, policy)
  }

  /** A kill-switch rule drops what uses its interface and has another owner. */
  function Fires(r: Rule, flag: string, p: Packet, other: (Rule, Packet) -> Option<Verdict>): Option<Verdict> {
    if |r| == 9 && r[0] == flag && r[2..6] == ["-m", "owner", "!", "--uid-owner"] && r[7..] == ["-j", "DROP"] then
      if p.interface == r[1] && (p.owner.None? || Decimal(p.owner.value) != r[6]) then Some(Drop) else None
    else other(r, p)
  }

  /** The number a numeral stands for. */
  function Numeral(s: string): int {
    if s == "" then 0 else 10 * Numeral(s[..|s| - 1]) + (s[|s| - 1] as int - '0' as int)
  }

  /** The uid in a rule text is its numeral, without a leading zero. */
  lemma {:induction false} DecimalReads(n: nat)
    ensures Numeral(Decimal(n)) == n
    ensures n > 0 ==> Decimal(n)[0] != '0'
  {
    if n < 10 {
      assert Decimal(n)[..0] == "";
    } else {
      DecimalReads(n / 10);
      var front := Decimal(n / 10);
      assert Decimal(n)[..|Decimal(n)| - 1] == front && Decimal(n)[0] == front[0];
      assert Decimal(n)[|Decimal(n)| - 1] == DIGITS[n % 10];
    }
  }

  lemma {:induction false} DecimalInjective(a: nat, b: nat)
    requires Decimal(a) == Decimal(b)
    ensures a == b
  {
    DigitsDistinct();
    DecimalLength(a);
    DecimalLength(b);
    if a >= 10 && b >= 10 {
      var da, db := Decimal(a / 10), Decimal(b / 10);
      assert Decimal(a)[..|Decimal(a)| - 1] == da && Decimal(b)[..|Decimal(b)| - 1] == db;
      assert Decimal(a)[|da|] == DIGITS[a % 10] && Decimal(b)[|db|] == DIGITS[b % 10];
      DecimalInjective(a / 10, b / 10);
    }
  }

  lemma DecimalLength(n: nat)
    ensures |Decimal(n)| == 1 <==> n < 10
  {
  }

  lemma DigitsDistinct()
    ensures forall i, j :: 0 <= i < j < 10 ==> DIGITS[i] != DIGITS[j]
  {
  }

  /** For any chains already there and any packet: after the ruleset is applied, the
      verdict is DROP for traffic on the interface not owned by the xray uid, and
      what it was before for everything else; no other chain changes. */
  lemma KillSwitchVerdict(t: Table, interface: string, uid: nat, p: Packet,
                          other: (Rule, Packet) -> Option<Verdict>, policy: Verdict)
    requires IsWord(interface)
    requires "OUTPUT" in t && "INPUT" in t
    ensures var after := RunAll(t, BuildKillSwitchRules(interface, Some(uid)).value);
            && after.Some? && after.value.Keys == t.Keys
            && (forall chain <- t :: chain != "OUTPUT" && chain != "INPUT" ==> after.value[chain] == t[chain])
            && (forall chain, flag | (chain, flag) in [("OUTPUT", "-o"), ("INPUT", "-i")] ::
                  Filter(after.value[chain], flag, p, other, policy) ==
                  if p.interface == interface && p.owner != Some(uid) then Drop
                  else Filter(t[chain], flag, p, other, policy))
  {
    hide RunAll, RuleText;
    var rules := BuildKillSwitchRules(interface, Some(uid)).value;
    var out, inp := ["-o", interface] + OwnerMatch(uid), ["-i", interface] + OwnerMatch(uid);
    KillSwitchTable(t, interface, uid);
    if p.owner.Some? && Decimal(p.owner.value) == Decimal(uid) { DecimalInjective(p.owner.value, uid); }
    HeadRule(out, t["OUTPUT"], "-o", interface, uid, p, other, policy);
    HeadRule(inp, t["INPUT"], "-i", interface, uid, p, other, policy);
  }

  lemma InsertRule(t: Table, chain: string, flag: string, interface: string, uid: nat)
    requires IsWord(interface) && IsWord(chain) && IsWord(flag) && chain in t
    ensures Exec(t, Tokens(RuleText("-I", chain, flag, interface, uid))) ==
            Some(t[chain := [[flag, interface] + OwnerMatch(uid)] + t[chain]])
  {
    TokensWord(interface);
    RuleTokens("-I", chain, flag, interface, uid);
    var rule := [flag, interface] + OwnerMatch(uid);
    assert [flag] + [interface] + OwnerMatch(uid) == rule;
    var args := HEAD + ["-I", chain] + rule;
    assert args[..3] == HEAD && args[3] == "-I" && args[4] == chain && args[5..] == rule;
  }

  /** One copy of the two rules on top of a table. */
  function WithKillSwitch(t: Table, interface: string, uid: nat): Table
    requires "OUTPUT" in t && "INPUT" in t
  {
    t["OUTPUT" := [["-o", interface] + OwnerMatch(uid)] + t["OUTPUT"]]
     ["INPUT" := [["-i", interface] + OwnerMatch(uid)] + t["INPUT"]]
  }

  /** The whole table after the ruleset. */
  lemma KillSwitchTable(t: Table, interface: string, uid: nat)
    requires IsWord(interface) && "OUTPUT" in t && "INPUT" in t
    ensures RunAll(t, BuildKillSwitchRules(interface, Some(uid)).value) ==
            Some(WithKillSwitch(t, interface, uid))
  {
    var rules := BuildKillSwitchRules(interface, Some(uid)).value;
    var t1 := t["OUTPUT" := [["-o", interface] + OwnerMatch(uid)] + t["OUTPUT"]];
    InsertRule(t, "OUTPUT", "-o", interface, uid);
    InsertRule(t1, "INPUT", "-i", interface, uid);
    assert rules[1..] == [rules[1]] && rules[1..][1..] == [];
    assert RunAll(t1, rules[1..]) == Exec(t1, Tokens(rules[1]));
  }

  lemma HeadRule(r: Rule, rest: seq<Rule>, flag: string, interface: string, uid: nat, p: Packet,
                 other: (Rule, Packet) -> Option<Verdict>, policy: Verdict)
    requires r == [flag, interface] + OwnerMatch(uid)
    requires p.owner.Some? && Decimal(p.owner.value) == Decimal(uid) ==> p.owner.value == uid
    ensures Filter([r] + rest, flag, p, other, policy) ==
            if p.interface == interface && p.owner != Some(uid) then Drop else Filter(rest, flag, p, other, policy)
  {
    assert ([r] + rest)[1..] == rest;
    assert r[2..6] == ["-m", "owner", "!", "--uid-owner"] && r[7..] == ["-j", "DROP"];
  }
}
