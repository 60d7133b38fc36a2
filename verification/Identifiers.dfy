/** `safe_ident` (engine-core/build.rs:111-165): a package segment as a Rust module name. */
module Identifiers {

  predicate IsKeyword(s: string) {
    s in {
      "as", "async", "await", "become", "box", "break", "const", "continue", "do", "dyn", "else",
      "enum", "extern", "false", "final", "fn", "for", "gen", "if", "impl", "in", "let", "loop",
      "macro", "match", "mod", "move", "mut", "override", "priv", "pub", "ref", "return",
      "static", "struct", "trait", "true", "try", "type", "typeof", "unsafe", "unsized", "use",
      "virtual", "where", "while", "yield"}
  }

  /** The four names that can never be raw identifiers. */
  predicate NeverRaw(s: string) { s == "self" || s == "super" || s == "crate" || s == "Self" }

  predicate IsAlpha(c: char) { 'a' <= c <= 'z' || 'A' <= c <= 'Z' }

  predicate IsDigit(c: char) { '0' <= c <= '9' }

  predicate ValidAt(index: nat, c: char) {
    c == '_' || IsAlpha(c) || (index > 0 && IsDigit(c))
  }

  function Sanitized(segment: string): (s: string)
    ensures |s| == |segment|
    ensures forall i :: 0 <= i < |s| ==> s[i] == if ValidAt(i, segment[i]) then segment[i] else '_'
  {
    seq(|segment|, i requires 0 <= i < |segment| => if ValidAt(i, segment[i]) then segment[i] else '_')
  }

  function SafeIdent(segment: string): string {
    if NeverRaw(segment) then segment + "_"
    else
      var ident := if segment == "" then "_" else Sanitized(segment);
      if IsKeyword(ident) then "r#" + ident else ident
  }

  method MakeSafeIdent(segment: string) returns (ident: string)
    ensures ident == SafeIdent(segment)
  {
    hide IsKeyword;
    if NeverRaw(segment) { ident := segment + "_"; return; }
    ident := "";
    for index := 0 to |segment|
      invariant ident == Sanitized(segment)[..index]
    {
      var ch := segment[index];
      ident := ident + [if ValidAt(index, ch) then ch else '_'];
    }
    assert ident == Sanitized(segment);
    UnderscoreIsFree();
    if ident == "" { ident := ident + "_"; assert ident == "_"; }
    if IsKeyword(ident) { ident := "r#" + ident; }
  }

  // ---- legality ----

  /** Identifier characters only, the first not a digit. */
  predicate IsIdentifier(s: string) {
    s != "" && forall i :: 0 <= i < |s| ==> ValidAt(i, s[i])
  }

  /** What Rust accepts after `mod`: an identifier that is neither `_` nor reserved, or a
      raw identifier made of a keyword. */
  predicate IsModuleName(s: string) {
    || (IsIdentifier(s) && s != "_" && !IsKeyword(s) && !NeverRaw(s))
    || (|s| > 2 && s[..2] == "r#" && IsKeyword(s[2..]))
  }

  /** The result is a legal module name for every segment except the empty one and a
      single character that is not a letter (those become `_`). */
  lemma SafeIdentIsLegal(segment: string)
    ensures IsModuleName(SafeIdent(segment)) <==> !(segment == "" || (|segment| == 1 && !IsAlpha(segment[0])))
  {
    if NeverRaw(segment) {
      SuffixedAreFree(segment);
    } else {
      hide IsKeyword;
      UnderscoreIsFree();
      var ident := if segment == "" then "_" else Sanitized(segment);
      assert IsIdentifier(ident);
      if segment != "" { SanitizedWithoutUnderscore(segment); }
      assert !NeverRaw(ident);
      assert ident == "_" <==> segment == "" || (|segment| == 1 && !IsAlpha(segment[0]));
      if IsKeyword(ident) { assert ("r#" + ident)[2..] == ident && ("r#" + ident)[..2] == "r#"; }
    }
  }

  lemma SanitizedWithoutUnderscore(segment: string)
    ensures '_' !in Sanitized(segment) ==> Sanitized(segment) == segment
  {
    var s := Sanitized(segment);
    if '_' !in s {
      forall i | 0 <= i < |s| ensures s[i] == segment[i] { assert s[i] in s; }
    }
  }

  lemma SuffixedAreFree(s: string)
    requires NeverRaw(s)
    ensures IsIdentifier(s) && IsIdentifier(s + "_") && !IsKeyword(s + "_") && !NeverRaw(s + "_") && s + "_" != "_"
    ensures '_' !in s && |s| > 1 && !NeverRaw(s + "_")
  {
    if s == "self" { assert s + "_" == "self_"; }
    else if s == "super" { assert s + "_" == "super_"; }
    else if s == "crate" { assert s + "_" == "crate_"; }
    else { assert s + "_" == "Self_"; }
  }

  lemma SafeIdentOneLine(segment: string)
    ensures '\n' !in SafeIdent(segment)
  {
    hide IsKeyword;
    assert forall c <- Sanitized(segment) :: c != '\n';
  }

  lemma UnderscoreIsFree()
    ensures !IsKeyword("_") && !IsKeyword("")
  {
  }

  // ---- distinctness ----

  /** Two segments that already are identifiers stay distinct, unless one of them is
      `self`, `super`, `crate` or `Self` and the other is the same with `_` appended. */
  lemma SafeIdentDistinct(a: string, b: string)
    requires IsIdentifier(a) && IsIdentifier(b)
    ensures SafeIdent(a) == SafeIdent(b) <==>
            a == b || (NeverRaw(a) && b == a + "_") || (NeverRaw(b) && a == b + "_")
  {
    hide IsKeyword, NeverRaw;
    IdentifierForm(a);
    IdentifierForm(b);
    if NeverRaw(a) { SuffixedAreFree(a); }
    if NeverRaw(b) { SuffixedAreFree(b); }
    if NeverRaw(a) && NeverRaw(b) {
      assert (a + "_")[..|a|] == a && (b + "_")[..|b|] == b;
    } else if SafeIdent(a) == SafeIdent(b) {
      if NeverRaw(a) { assert '#' !in a + "_"; }
      if NeverRaw(b) { assert '#' !in b + "_"; }
    }
  }

  /** The three shapes a result can have, told apart by `#` and the last character. */
  lemma IdentifierForm(a: string)
    requires IsIdentifier(a)
    ensures Sanitized(a) == a && '#' !in a
    ensures NeverRaw(a) ==> SafeIdent(a) == a + "_" && '_' !in a
    ensures !NeverRaw(a) ==> SafeIdent(a) == if IsKeyword(a) then "r#" + a else a
    ensures !NeverRaw(a) && IsKeyword(a) ==> '#' in SafeIdent(a) && SafeIdent(a)[2..] == a
  {
    hide IsKeyword;
    assert forall i :: 0 <= i < |a| ==> ValidAt(i, a[i]) && Sanitized(a)[i] == a[i];
    assert Sanitized(a) == a;
    if !NeverRaw(a) && IsKeyword(a) { assert ("r#" + a)[2..] == a && ("r#" + a)[1] == '#'; }
  }
}
