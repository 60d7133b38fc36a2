/** The module-tree compiler of engine-core/build.rs: generated files `a.b.c.rs` become
    `pub mod a { pub mod b { pub mod c { include!(...) } } }`. */
module ModuleTree {
  import opened Text
  import opened Identifiers

  type Path = seq<string>

  /** A `BTreeMap<String, ModuleNode>`: the nodes in key order, each with its own file and
      its map of children. */
  datatype Forest = Empty | Entry(name: string, file: Option<string>, children: Forest, rest: Forest)

  /** `insert_generated_file` */
  function Insert(f: Forest, segments: Path, file: string): Forest
    decreases |segments|, f
  {
    if segments == [] then f
    else if f.Empty? || Before(segments[0], f.name) then
      Entry(segments[0], if |segments| == 1 then Some(file) else None, Insert(Empty, segments[1..], file), f)
    else if segments[0] == f.name then
      f.(file := if |segments| == 1 then Some(file) else f.file, children := Insert(f.children, segments[1..], file))
    else f.(rest := Insert(f.rest, segments, file))
  }

  function Lookup(f: Forest, path: Path): Option<string> {
    if path == [] || f.Empty? then None
    else if f.name != path[0] then Lookup(f.rest, path)
    else if |path| == 1 then f.file
    else Lookup(f.children, path[1..])
  }

  /** Keys increase, and every node leads to some file. */
  ghost predicate Canonical(f: Forest) {
    f.Entry? ==>
      && (f.rest.Entry? ==> Before(f.name, f.rest.name))
      && (f.file.Some? || f.children.Entry?)
      && Canonical(f.children) && Canonical(f.rest)
  }

  // ---- the tree is determined by what it holds ----

  lemma {:induction false} AbsentBeforeFirst(f: Forest, path: Path)
    requires Canonical(f) && path != [] && (f.Entry? ==> Before(path[0], f.name))
    ensures Lookup(f, path) == None
  {
    if f.Entry? {
      BeforeIsTotal(path[0], f.name);
      if f.rest.Entry? { BeforeIsTransitive(path[0], f.name, f.rest.name); }
      AbsentBeforeFirst(f.rest, path);
    }
  }

  lemma {:induction false} InsertKeepsCanonical(f: Forest, segments: Path, file: string)
    requires Canonical(f) && segments != []
    ensures Canonical(Insert(f, segments, file)) && Insert(f, segments, file).Entry?
    ensures Insert(f, segments, file).name == if f.Empty? || Before(segments[0], f.name) then segments[0] else f.name
    decreases |segments|, f
  {
    if f.Empty? || Before(segments[0], f.name) {
      if |segments| > 1 { InsertKeepsCanonical(Empty, segments[1..], file); }
    } else if segments[0] == f.name {
      if |segments| > 1 { InsertKeepsCanonical(f.children, segments[1..], file); }
    } else {
      BeforeIsTotal(segments[0], f.name);
      InsertKeepsCanonical(f.rest, segments, file);
    }
  }

  lemma {:induction false} LookupInsert(f: Forest, segments: Path, file: string, path: Path)
    requires Canonical(f) && segments != []
    ensures Lookup(Insert(f, segments, file), path) == if path == segments then Some(file) else Lookup(f, path)
    decreases |segments|, f
  {
    if path == [] { return; }
    assert segments == [segments[0]] + segments[1..] && path == [path[0]] + path[1..];
    if f.Empty? || Before(segments[0], f.name) {
      if path[0] == segments[0] {
        AbsentBeforeFirst(f, path);
        if |segments| > 1 { LookupInsert(Empty, segments[1..], file, path[1..]); }
      }
    } else if segments[0] == f.name {
      if path[0] == segments[0] && |segments| > 1 { LookupInsert(f.children, segments[1..], file, path[1..]); }
    } else {
      LookupInsert(f.rest, segments, file, path);
    }
  }

  /** Every node leads to a file. */
  lemma {:induction false} SomePath(f: Forest) returns (path: Path)
    requires Canonical(f) && f.Entry?
    ensures path != [] && path[0] == f.name && Lookup(f, path).Some?
  {
    if f.file.Some? {
      path := [f.name];
    } else {
      var tail := SomePath(f.children);
      path := [f.name] + tail;
      assert path[1..] == tail;
    }
  }

  ghost predicate SameFiles(f: Forest, g: Forest) {
    forall path :: Lookup(f, path) == Lookup(g, path)
  }

  /** A tree whose first name comes earlier holds a file the other does not. */
  lemma EarlierFirst(f: Forest, g: Forest) returns (path: Path)
    requires Canonical(f) && Canonical(g) && f.Entry? && (g.Entry? ==> Before(f.name, g.name))
    ensures Lookup(f, path) != Lookup(g, path)
  {
    path := SomePath(f);
    AbsentBeforeFirst(g, path);
  }

  lemma SameFirstName(f: Forest, g: Forest)
    requires Canonical(f) && Canonical(g) && SameFiles(f, g)
    ensures f.Empty? <==> g.Empty?
    ensures f.Entry? ==> f.name == g.name
  {
    if f.Entry? && (g.Entry? ==> Before(f.name, g.name)) { var path := EarlierFirst(f, g); }
    if g.Entry? && (f.Entry? ==> Before(g.name, f.name)) { var path := EarlierFirst(g, f); }
    if f.Entry? && g.Entry? { BeforeIsTotal(f.name, g.name); }
  }

  lemma {:induction false} CanonicalIsUnique(f: Forest, g: Forest)
    requires Canonical(f) && Canonical(g) && SameFiles(f, g)
    ensures f == g
  {
    SameFirstName(f, g);
    if f.Entry? {
      assert Lookup(f, [f.name]) == Lookup(g, [f.name]);
      forall path ensures Lookup(f.children, path) == Lookup(g.children, path) {
        if path != [] {
          var long := [f.name] + path;
          assert long[1..] == path && Lookup(f, long) == Lookup(g, long);
        }
      }
      CanonicalIsUnique(f.children, g.children);
      forall path ensures Lookup(f.rest, path) == Lookup(g.rest, path) {
        if path != [] && path[0] == f.name {
          AbsentBeforeFirst(f.rest, path);
          AbsentBeforeFirst(g.rest, path);
        } else {
          assert Lookup(f, path) == Lookup(g, path);
        }
      }
      CanonicalIsUnique(f.rest, g.rest);
    }
  }

  // ---- emission and replay ----

  datatype Line = Open(ident: string) | Include(file: string) | Close

  function EmitTree(f: Forest): seq<Line> {
    if f.Empty? then []
    else
      [Open(SafeIdent(f.name))] + (if f.file.Some? then [Include(f.file.value)] else []) +
      EmitTree(f.children) + [Close] + EmitTree(f.rest)
  }

  /** The text of one line; `quote` is Rust's `{:?}` on a path. */
  function LineText(line: Line, quote: string -> string): string {
    match line
    case Open(ident) => "pub mod " + ident + " {\n"
    case Include(file) => "include!(" + quote(file) + ");\n"
    case Close => "}\n"
  }

  function Render(lines: seq<Line>, quote: string -> string): string {
    if lines == [] then "" else LineText(lines[0], quote) + Render(lines[1..], quote)
  }

  // ---- the text that is written ----

  /** What a reader of the generated file sees: its lines without their ends, each recognised
      by its characters; None for any other text.  The argument of `include!` is read as the
      literal that stands there. */
  function ReadLine(text: string): Option<Line> {
    if text == "}" then Some(Close)
    else if |text| >= 10 && text[..8] == "pub mod " && text[|text| - 2..] == " {" then Some(Open(text[8..|text| - 2]))
    else if |text| >= 11 && text[..9] == "include!(" && text[|text| - 2..] == ");" then Some(Include(text[9..|text| - 2]))
    else None
  }

  function ReadLines(texts: seq<string>): Option<seq<Line>> {
    if texts == [] then Some([])
    else match (ReadLine(texts[0]), ReadLines(texts[1..]))
      case (Some(line), Some(rest)) => Some([line] + rest)
      case _ => None
  }

  /** The lines of a text; every line must be ended. */
  function ReadText(text: string): Option<seq<Line>> {
    var texts := Split(text, '\n');
    if texts[|texts| - 1] != "" then None else ReadLines(texts[..|texts| - 1])
  }

  /** Rust's `{:?}` writes a string on one line. */
  ghost predicate OneLine(quote: string -> string) {
    forall s :: '\n' !in quote(s)
  }

  /** The lines as a reader sees them, with the literals of the included paths. */
  function Literal(line: Line, quote: string -> string): Line {
    if line.Include? then Include(quote(line.file)) else line
  }

  function Literals(lines: seq<Line>, quote: string -> string): (r: seq<Line>)
    ensures |r| == |lines|
  {
    if lines == [] then [] else [Literal(lines[0], quote)] + Literals(lines[1..], quote)
  }

  ghost predicate PlainIdents(lines: seq<Line>) {
    forall line <- lines :: line.Open? ==> '\n' !in line.ident
  }

  /** Each line is written so that it reads back as itself, and is ended once. */
  lemma LineReads(line: Line, quote: string -> string)
    requires OneLine(quote) && (line.Open? ==> '\n' !in line.ident)
    ensures var text := LineText(line, quote);
            && |text| > 0 && text[|text| - 1] == '\n' && '\n' !in text[..|text| - 1]
            && ReadLine(text[..|text| - 1]) == Some(Literal(line, quote))
  {
    var text := LineText(line, quote);
    var body := text[..|text| - 1];
    match line
    case Open(ident) =>
      assert body == "pub mod " + ident + " {";
      assert body[..8] == "pub mod " && body[|body| - 2..] == " {" && body[8..|body| - 2] == ident;
    case Include(file) =>
      var q := quote(file);
      assert body == "include!(" + q + ");";
      assert body[..8] == "include!" && body[..9] == "include!(" && body[|body| - 2..] == ");" && body[9..|body| - 2] == q;
    case Close =>
      assert body == "}";
  }

  lemma {:induction false} TextReads(lines: seq<Line>, quote: string -> string)
    requires OneLine(quote) && PlainIdents(lines)
    ensures ReadText(Render(lines, quote)) == Some(Literals(lines, quote))
  {
    if lines != [] {
      hide LineText, ReadLine, OneLine, ReadText;
      var text, rest := LineText(lines[0], quote), Render(lines[1..], quote);
      assert lines[0] in lines && forall line <- lines[1..] :: line in lines;
      LineReads(lines[0], quote);
      TextReads(lines[1..], quote);
      var body := text[..|text| - 1];
      assert text + rest == body + ['\n'] + rest;
      FirstLineReads(body, rest);
    }
  }

  lemma FirstLineReads(body: string, rest: string)
    requires '\n' !in body && ReadLine(body).Some? && ReadText(rest).Some?
    ensures ReadText(body + ['\n'] + rest) == Some([ReadLine(body).value] + ReadText(rest).value)
  {
    hide ReadLine, Split;
    SplitPrefix(body, rest, '\n');
    var texts := Split(rest, '\n');
    var all, front := [body] + texts, texts[..|texts| - 1];
    assert all[|all| - 1] == texts[|texts| - 1] && all[..|all| - 1] == [body] + front;
    assert ([body] + front)[1..] == front;
  }

  lemma {:induction false} RenderAppend(a: seq<Line>, b: seq<Line>, quote: string -> string)
    ensures Render(a + b, quote) == Render(a, quote) + Render(b, quote)
  {
    if a == [] {
      assert a + b == b;
    } else {
      assert (a + b)[0] == a[0] && (a + b)[1..] == a[1..] + b;
      RenderAppend(a[1..], b, quote);
    }
  }

  /** `emit_tree`, pushing onto `out`: a loop over the map, recursive in the children. */
  method PushTree(nodes: Forest, out: string, quote: string -> string) returns (result: string)
    ensures result == out + Render(EmitTree(nodes), quote)
    decreases nodes
  {
    hide SafeIdent, EmitTree, Render, LineText;
    result := out;
    var current := nodes;
    while current.Entry?
      invariant current == nodes || current < nodes
      invariant result + Render(EmitTree(current), quote) == out + Render(EmitTree(nodes), quote)
      decreases current
    {
      ghost var before := result;
      var ident := MakeSafeIdent(current.name);
      result := result + LineText(Open(ident), quote);
      if current.file.Some? { result := result + LineText(Include(current.file.value), quote); }
      assert result == before + HeaderText(current, quote);
      result := PushTree(current.children, result, quote);
      result := result + LineText(Close, quote);
      RenderEntry(current, quote);
      current := current.rest;
    }
    RenderNothing(quote);
  }

  function HeaderText(f: Forest, quote: string -> string): string
    requires f.Entry?
  {
    LineText(Open(SafeIdent(f.name)), quote) + if f.file.Some? then LineText(Include(f.file.value), quote) else ""
  }

  lemma RenderNothing(quote: string -> string)
    ensures Render(EmitTree(Empty), quote) == ""
  {
  }

  lemma RenderEntry(f: Forest, quote: string -> string)
    requires f.Entry?
    ensures Render(EmitTree(f), quote) ==
            HeaderText(f, quote) + Render(EmitTree(f.children), quote) + LineText(Close, quote) + Render(EmitTree(f.rest), quote)
  {
    hide SafeIdent, LineText;
    var header := [Open(SafeIdent(f.name))] + (if f.file.Some? then [Include(f.file.value)] else []);
    RenderAppend(header + EmitTree(f.children) + [Close], EmitTree(f.rest), quote);
    RenderAppend(header + EmitTree(f.children), [Close], quote);
    RenderAppend(header, EmitTree(f.children), quote);
    assert [Close][1..] == [];
    assert Render([Close], quote) == LineText(Close, quote);
    assert header[1..] == if f.file.Some? then [Include(f.file.value)] else [];
    assert Render(header, quote) == HeaderText(f, quote);
  }

  /** Reading the lines with a stack of open modules: each include is recorded under the
      modules open at that point; None when a close has nothing to close. */
  function Replay(lines: seq<Line>, open: Path, records: seq<(Path, string)>): Option<(Path, seq<(Path, string)>)>
    decreases |lines|
  {
    if lines == [] then Some((open, records))
    else match lines[0]
      case Open(ident) => Replay(lines[1..], open + [ident], records)
      case Include(file) => Replay(lines[1..], open, records + [(open, file)])
      case Close => if open == [] then None else Replay(lines[1..], open[..|open| - 1], records)
  }

  function SanitisedPath(path: Path): (r: Path)
    ensures |r| == |path|
  {
    seq(|path|, i requires 0 <= i < |path| => SafeIdent(path[i]))
  }

  /** The files of the tree in emission order, under their own dotted paths. */
  function Files(f: Forest, prefix: Path): seq<(Path, string)> {
    if f.Empty? then []
    else
      (if f.file.Some? then [(prefix + [f.name], f.file.value)] else []) +
      Files(f.children, prefix + [f.name]) + Files(f.rest, prefix)
  }

  function Sanitised(files: seq<(Path, string)>): (r: seq<(Path, string)>)
    ensures |r| == |files|
  {
    seq(|files|, i requires 0 <= i < |files| => (SanitisedPath(files[i].0), files[i].1))
  }

  lemma {:induction false} ReplayEmitted(f: Forest, more: seq<Line>, prefix: Path, records: seq<(Path, string)>)
    ensures Replay(EmitTree(f) + more, SanitisedPath(prefix), records) ==
            Replay(more, SanitisedPath(prefix), records + Sanitised(Files(f, prefix)))
  {
    if f.Empty? {
      assert EmitTree(f) + more == more && records + Sanitised([]) == records;
    } else {
      hide SafeIdent, Replay, EmitTree, Files, Sanitised, SanitisedPath, Own, Included;
      var open, ident, inner := SanitisedPath(prefix), SafeIdent(f.name), prefix + [f.name];
      var afterRest := EmitTree(f.rest) + more;
      var afterChildren := [Close] + afterRest;
      var r1 := records + Sanitised(Own(f, prefix));
      var r2 := r1 + Sanitised(Files(f.children, inner));
      PathGrows(prefix, f.name);
      EmitShape(f, more);
      ReplayHeader(f, prefix, EmitTree(f.children) + afterChildren, records);
      ReplayEmitted(f.children, afterChildren, inner, r1);
      ReplayClose(open, ident, afterRest, r2);
      ReplayEmitted(f.rest, more, prefix, r2);
      FilesShape(f, prefix);
      Assoc3(records, Sanitised(Own(f, prefix)), Sanitised(Files(f.children, inner)), Sanitised(Files(f.rest, prefix)));
    }
  }

  lemma Assoc3<T>(a: seq<T>, b: seq<T>, c: seq<T>, d: seq<T>)
    ensures a + (b + c + d) == a + b + c + d
  {
  }

  lemma Assoc5<T>(a: seq<T>, b: seq<T>, c: seq<T>, d: seq<T>, e: seq<T>, more: seq<T>)
    ensures a + b + c + d + e + more == a + (b + (c + (d + (e + more))))
  {
  }

  /** The opening line of a node and its own file, if any. */
  lemma ReplayHeader(f: Forest, prefix: Path, tail: seq<Line>, records: seq<(Path, string)>)
    requires f.Entry?
    ensures Replay([Open(SafeIdent(f.name))] + (Included(f) + tail), SanitisedPath(prefix), records) ==
            Replay(tail, SanitisedPath(prefix + [f.name]), records + Sanitised(Own(f, prefix)))
  {
    hide SafeIdent, Replay, Sanitised, SanitisedPath;
    ReplayHead(SafeIdent(f.name), Included(f), tail, SanitisedPath(prefix), records);
    PathGrows(prefix, f.name);
    OwnRecord(f, prefix);
  }

  function Own(f: Forest, prefix: Path): seq<(Path, string)>
    requires f.Entry?
  {
    if f.file.Some? then [(prefix + [f.name], f.file.value)] else []
  }

  function Included(f: Forest): seq<Line>
    requires f.Entry?
  {
    if f.file.Some? then [Include(f.file.value)] else []
  }

  lemma PathGrows(prefix: Path, name: string)
    ensures SanitisedPath(prefix + [name]) == SanitisedPath(prefix) + [SafeIdent(name)]
  {
  }

  lemma OwnRecord(f: Forest, prefix: Path)
    requires f.Entry?
    ensures Sanitised(Own(f, prefix)) ==
            if Included(f) == [] then [] else [(SanitisedPath(prefix) + [SafeIdent(f.name)], Included(f)[0].file)]
  {
    PathGrows(prefix, f.name);
  }

  lemma EmitShape(f: Forest, more: seq<Line>)
    requires f.Entry?
    ensures EmitTree(f) + more ==
            [Open(SafeIdent(f.name))] + (Included(f) + (EmitTree(f.children) + ([Close] + (EmitTree(f.rest) + more))))
  {
    hide SafeIdent;
    Assoc5([Open(SafeIdent(f.name))], Included(f), EmitTree(f.children), [Close], EmitTree(f.rest), more);
  }

  lemma FilesShape(f: Forest, prefix: Path)
    requires f.Entry?
    ensures Sanitised(Files(f, prefix)) ==
            Sanitised(Own(f, prefix)) + Sanitised(Files(f.children, prefix + [f.name])) + Sanitised(Files(f.rest, prefix))
  {
    hide Sanitised;
    var own, inner, rest := Own(f, prefix), Files(f.children, prefix + [f.name]), Files(f.rest, prefix);
    assert Files(f, prefix) == own + inner + rest;
    SanitisedAppend(own + inner, rest);
    SanitisedAppend(own, inner);
  }

  lemma SanitisedAppend(a: seq<(Path, string)>, b: seq<(Path, string)>)
    ensures Sanitised(a + b) == Sanitised(a) + Sanitised(b)
  {
  }

  lemma ReplayClose(open: Path, ident: string, more: seq<Line>, records: seq<(Path, string)>)
    ensures Replay([Close] + more, open + [ident], records) == Replay(more, open, records)
  {
    assert ([Close] + more)[1..] == more && (open + [ident])[..|open|] == open;
  }

  lemma ReplayHead(ident: string, included: seq<Line>, tail: seq<Line>, open: Path, records: seq<(Path, string)>)
    requires included == [] || (|included| == 1 && included[0].Include?)
    ensures Replay([Open(ident)] + (included + tail), open, records) ==
            Replay(tail, open + [ident], records + if included == [] then [] else [(open + [ident], included[0].file)])
  {
    assert ([Open(ident)] + (included + tail))[1..] == included + tail;
    if included == [] {
      assert included + tail == tail && records + [] == records;
    } else {
      assert (included + tail)[1..] == tail;
    }
  }

  /** How often a file occurs in the emission order. */
  ghost function Count(f: Forest, prefix: Path, e: (Path, string)): nat {
    multiset(Files(f, prefix))[e]
  }

  lemma CountSplit(f: Forest, prefix: Path, e: (Path, string))
    requires f.Entry?
    ensures Count(f, prefix, e) ==
            (if f.file.Some? && e == (prefix + [f.name], f.file.value) then 1 else 0)
            + Count(f.children, prefix + [f.name], e) + Count(f.rest, prefix, e)
  {
    var own := if f.file.Some? then [(prefix + [f.name], f.file.value)] else [];
    var inner, rest := Files(f.children, prefix + [f.name]), Files(f.rest, prefix);
    assert multiset(own + inner + rest) == multiset(own) + multiset(inner) + multiset(rest);
  }

  /** A path occurs in the emission order exactly once if the tree holds a file there. */
  lemma {:induction false} FilesAreLookups(f: Forest, prefix: Path, path: Path, file: string)
    requires Canonical(f)
    ensures Count(f, prefix, (prefix + path, file)) == if Lookup(f, path) == Some(file) then 1 else 0
  {
    if f.Entry? {
      var e := (prefix + path, file);
      CountSplit(f, prefix, e);
      SamePath(prefix, path, f.name);
      FilesAreLookups(f.rest, prefix, path, file);
      if path != [] && path[0] == f.name {
        AbsentBeforeFirst(f.rest, path);
        FilesAreLookups(f.children, prefix + [f.name], path[1..], file);
        Regrouped(prefix, path);
        hide Count, Files, Canonical, Before;
      } else {
        NotUnder(f.children, prefix, f.name, path, file);
        hide Count, Files, Canonical, Before;
      }
    }
  }

  lemma Regrouped(prefix: Path, path: Path)
    requires path != []
    ensures prefix + path == (prefix + [path[0]]) + path[1..]
  {
  }

  lemma SamePath(prefix: Path, path: Path, name: string)
    ensures prefix + path == prefix + [name] <==> path == [name]
    ensures path == [name] <==> |path| == 1 && path[0] == name
  {
    if prefix + path == prefix + [name] { assert path == (prefix + path)[|prefix|..] && [name] == (prefix + [name])[|prefix|..]; }
  }

  lemma NotUnder(f: Forest, prefix: Path, name: string, path: Path, file: string)
    requires path == [] || path[0] != name
    ensures Count(f, prefix + [name], (prefix + path, file)) == 0
  {
    FilesStayUnder(f, prefix + [name], (prefix + path, file));
    if path != [] { assert (prefix + path)[|prefix|] == path[0]; }
    assert (prefix + [name])[|prefix|] == name;
  }

  lemma {:induction false} FilesStayUnder(f: Forest, prefix: Path, e: (Path, string))
    ensures e in Files(f, prefix) ==> |e.0| > |prefix| && e.0[..|prefix|] == prefix
  {
    if f.Entry? {
      FilesStayUnder(f.children, prefix + [f.name], e);
      FilesStayUnder(f.rest, prefix, e);
      if e in Files(f.children, prefix + [f.name]) {
        assert e.0[..|prefix|] == e.0[..|prefix| + 1][..|prefix|];
      }
    }
  }

  function LiteralRecords(records: seq<(Path, string)>, quote: string -> string): (r: seq<(Path, string)>)
    ensures |r| == |records|
  {
    seq(|records|, i requires 0 <= i < |records| => (records[i].0, quote(records[i].1)))
  }

  /** Replaying what a reader sees is replaying the lines. */
  lemma {:induction false} ReplayLiterals(lines: seq<Line>, quote: string -> string, open: Path, records: seq<(Path, string)>)
    ensures Replay(Literals(lines, quote), open, LiteralRecords(records, quote)) ==
            match Replay(lines, open, records)
            case None => None
            case Some((end, all)) => Some((end, LiteralRecords(all, quote)))
    decreases |lines|
  {
    if lines != [] {
      var read := Literals(lines, quote);
      assert read[0] == Literal(lines[0], quote) && read[1..] == Literals(lines[1..], quote);
      match lines[0]
      case Open(ident) => ReplayLiterals(lines[1..], quote, open + [ident], records);
      case Include(file) =>
        assert LiteralRecords(records, quote) + [(open, quote(file))] == LiteralRecords(records + [(open, file)], quote);
        ReplayLiterals(lines[1..], quote, open, records + [(open, file)]);
      case Close =>
        if open != [] { ReplayLiterals(lines[1..], quote, open[..|open| - 1], records); }
    }
  }

  lemma {:induction false} EmittedIdentsPlain(f: Forest)
    ensures PlainIdents(EmitTree(f))
  {
    if f.Entry? {
      hide SafeIdent;
      SafeIdentOneLine(f.name);
      EmittedIdentsPlain(f.children);
      EmittedIdentsPlain(f.rest);
    }
  }

  /** What reading the generated text back must give: no module closed that is not open, none
      left open, and each file of the tree once, as its literal, under its sanitised path. */
  ghost predicate ReadsBack(code: string, tree: Forest, quote: string -> string) {
    var lines := ReadText(code);
    lines.Some? && Replay(lines.value, [], []) == Some(([], LiteralRecords(Sanitised(Files(tree, [])), quote)))
  }

  lemma RenderedReadsBack(tree: Forest, quote: string -> string)
    requires OneLine(quote)
    ensures ReadsBack(Render(EmitTree(tree), quote), tree, quote)
  {
    hide SafeIdent, Render, EmitTree, ReadText, Replay, OneLine, Sanitised, SanitisedPath;
    EmittedIdentsPlain(tree);
    TextReads(EmitTree(tree), quote);
    ReplayEmitted(tree, [], [], []);
    NothingReplayed(Sanitised(Files(tree, [])));
    assert EmitTree(tree) + [] == EmitTree(tree) && [] + Sanitised(Files(tree, [])) == Sanitised(Files(tree, []));
    ReplayLiterals(EmitTree(tree), quote, [], []);
    NoRecords(quote);
  }

  lemma NothingReplayed(records: seq<(Path, string)>)
    ensures Replay([], [], records) == Some(([], records)) && SanitisedPath([]) == []
  {
  }

  lemma NoRecords(quote: string -> string)
    ensures LiteralRecords([], quote) == []
  {
  }

  // ---- generate_module_tree ----

  /** A file of the generation directory: its name without extension, its path. */
  datatype Generated = Generated(stem: string, isRust: bool, path: string)

  ghost predicate DistinctStems(files: seq<Generated>) {
    forall i, j :: 0 <= i < j < |files| && files[i].isRust && files[j].isRust ==> files[i].stem != files[j].stem
  }

  function Build(files: seq<Generated>): Forest {
    if files == [] then Empty
    else
      var last := files[|files| - 1];
      var front := Build(files[..|files| - 1]);
      if last.isRust then Insert(front, Split(last.stem, '.'), last.path) else front
  }

  function CountRust(files: seq<Generated>): nat {
    if files == [] then 0 else CountRust(files[..|files| - 1]) + if files[|files| - 1].isRust then 1 else 0
  }

  lemma {:induction false} BuildHolds(files: seq<Generated>, path: Path, file: string)
    requires DistinctStems(files)
    ensures Canonical(Build(files))
    ensures Lookup(Build(files), path) == Some(file) <==>
            exists g :: g in files && g.isRust && Split(g.stem, '.') == path && g.path == file
  {
    if files != [] {
      var front, last := files[..|files| - 1], files[|files| - 1];
      assert files == front + [last] && DistinctStems(front);
      BuildHolds(front, path, file);
      if last.isRust {
        var segments := Split(last.stem, '.');
        InsertKeepsCanonical(Build(front), segments, last.path);
        LookupInsert(Build(front), segments, last.path, path);
        if path == segments {
          forall g | g in front && g.isRust ensures Split(g.stem, '.') != segments {
            JoinSplit(g.stem, '.');
            JoinSplit(last.stem, '.');
          }
        }
      }
    }
  }

  /** The count is the number of files in the tree. */
  lemma {:induction false} CountIsFiles(files: seq<Generated>)
    requires DistinctStems(files)
    ensures CountRust(files) == |Files(Build(files), [])|
  {
    if files != [] {
      var front, last := files[..|files| - 1], files[|files| - 1];
      assert files == front + [last] && DistinctStems(front);
      CountIsFiles(front);
      if last.isRust {
        var segments := Split(last.stem, '.');
        BuildHolds(front, segments, "");
        NotYetHeld(front, last);
        InsertAddsOne(Build(front), segments, last.path, []);
      }
    }
  }

  lemma NotYetHeld(front: seq<Generated>, last: Generated)
    requires DistinctStems(front + [last]) && last.isRust
    ensures Lookup(Build(front), Split(last.stem, '.')) == None
  {
    var segments := Split(last.stem, '.');
    var all := front + [last];
    assert forall i :: 0 <= i < |front| ==> all[i] == front[i] && all[|front|] == last;
    assert DistinctStems(front);
    var held := Lookup(Build(front), segments);
    if held.Some? {
      BuildHolds(front, segments, held.value);
      var g :| g in front && g.isRust && Split(g.stem, '.') == segments && g.path == held.value;
      JoinSplit(g.stem, '.');
      JoinSplit(last.stem, '.');
    }
  }

  /** Inserting at a path that holds no file adds one file. */
  lemma {:induction false} InsertAddsOne(f: Forest, segments: Path, file: string, prefix: Path)
    requires Canonical(f) && segments != [] && Lookup(f, segments) == None
    ensures |Files(Insert(f, segments, file), prefix)| == |Files(f, prefix)| + 1
    decreases |segments|, f
  {
    var inner := prefix + [segments[0]];
    if f.Empty? || Before(segments[0], f.name) {
      if |segments| > 1 { InsertAddsOne(Empty, segments[1..], file, inner); }
    } else if segments[0] == f.name {
      if |segments| > 1 { InsertAddsOne(f.children, segments[1..], file, inner); }
    } else {
      InsertAddsOne(f.rest, segments, file, prefix);
    }
  }

  /** The code is the same whatever order the directory is read in. */
  lemma ReadingOrderIrrelevant(a: seq<Generated>, b: seq<Generated>)
    requires DistinctStems(a) && DistinctStems(b)
    requires forall g :: g in a <==> g in b
    ensures Build(a) == Build(b) && EmitTree(Build(a)) == EmitTree(Build(b))
  {
    BuildHolds(a, [], "");
    BuildHolds(b, [], "");
    forall path ensures Lookup(Build(a), path) == Lookup(Build(b), path) {
      var x, y := Lookup(Build(a), path), Lookup(Build(b), path);
      if x.Some? { BuildHolds(a, path, x.value); BuildHolds(b, path, x.value); }
      if y.Some? { BuildHolds(a, path, y.value); BuildHolds(b, path, y.value); }
    }
    CanonicalIsUnique(Build(a), Build(b));
  }

  /** Replaying the generated lines never underflows, ends with no module open, and
      records each generated file exactly once, under its own sanitised dotted path. */
  lemma EveryFileOnce(files: seq<Generated>)
    requires DistinctStems(files)
    ensures Replay(EmitTree(Build(files)), [], []) == Some(([], Sanitised(Files(Build(files), []))))
    ensures forall path: Path, file: string ::
              Count(Build(files), [], (path, file)) ==
              if exists g :: g in files && g.isRust && Split(g.stem, '.') == path && g.path == file then 1 else 0
  {
    var tree := Build(files);
    ReplayEmitted(tree, [], [], []);
    assert EmitTree(tree) + [] == EmitTree(tree) && SanitisedPath([]) == [];
    assert [] + Sanitised(Files(tree, [])) == Sanitised(Files(tree, []));
    forall path: Path, file: string
      ensures Count(tree, [], (path, file)) ==
              if exists g :: g in files && g.isRust && Split(g.stem, '.') == path && g.path == file then 1 else 0
    {
      BuildHolds(files, path, file);
      FilesAreLookups(tree, [], path, file);
      assert [] + path == path;
    }
  }

  /** `generate_module_tree`: the text of pb_tree.rs and the number of files. */
  method GenerateModuleTree(files: seq<Generated>, quote: string -> string) returns (code: string, count: nat)
    ensures code == Render(EmitTree(Build(files)), quote)
    ensures OneLine(quote) ==> ReadsBack(code, Build(files), quote)
    ensures count == CountRust(files) && (DistinctStems(files) ==> count == |Files(Build(files), [])|)
  {
    var root := Empty;
    count := 0;
    for i := 0 to |files|
      invariant root == Build(files[..i]) && count == CountRust(files[..i])
    {
      assert files[..i + 1][..i] == files[..i];
      if files[i].isRust {
        root := Insert(root, Split(files[i].stem, '.'), files[i].path);
        count := count + 1;
      }
    }
    assert files[..|files|] == files;
    code := PushTree(root, "", quote);
    assert "" + Render(EmitTree(root), quote) == Render(EmitTree(root), quote);
    if OneLine(quote) { RenderedReadsBack(root, quote); }
    if DistinctStems(files) { CountIsFiles(files); }
  }
}
