/** `#+INCLUDE: "file"` expansion, applied to the Org text before anything
    else: each directive line is replaced by the included file's own
    expanded text, by an `<include>` element for an Org file, or by an HTML
    comment when the file is missing or already being included. The file
    system and path arithmetic are parameters: `files` maps each existing
    absolute path to its content. */
module Includes {
  import opened Wrappers
  import opened Text

  /** What the expansion may ask of its surroundings. */
  datatype IncludeEnv = IncludeEnv(
    files: map<string, string>,
    resolve: (string, string) -> string,
    dirname: string -> string)

  const Directive: string := "#+INCLUDE:"

  /** The double quote that delimits the file name. */
  const Quote: char := "\""[0]

  /** The file name of a directive line: the directive at the line start,
      optional whitespace, then a non-empty name between double quotes. The
      directive is upper case only. */
  function IncludeTarget(line: string): (r: Option<string>)
    ensures r.Some? ==> 1 <= |r.value| && Quote !in r.value
  {
    if !StartsWith(line, Directive) then None
    else
      var p := |Directive| + LeadingSpaces(line[|Directive|..]);
      if p < |line| && line[p] == Quote && Quote in line[p + 1..] then
        var n := IndexOfChar(line[p + 1..], Quote);
        if n >= 1 then Some(line[p + 1..][..n]) else None
      else None
  }

  /** A directive line yields the name between its quotes, whatever
      follows the closing quote. */
  lemma IncludeTargetOf(ws: string, f: string, rest: string)
    requires AllSpaces(ws) && 1 <= |f| && Quote !in f
    ensures IncludeTarget(Directive + ws + "\"" + f + "\"" + rest) == Some(f)
  {
    var t := "\"" + f + "\"" + rest;
    DirectiveLineParts(ws, f, rest);
    LeadingSpacesOf(ws, t);
    FirstQuote(f, "\"" + rest);
  }

  lemma DirectiveLineParts(ws: string, f: string, rest: string)
    ensures var line := Directive + ws + "\"" + f + "\"" + rest;
      var t := "\"" + f + "\"" + rest;
      var p := |Directive| + |ws|;
      StartsWith(line, Directive) && line[|Directive|..] == ws + t &&
      p < |line| && line[p] == Quote && line[p + 1..] == f + ("\"" + rest)
  {
    var line := Directive + ws + "\"" + f + "\"" + rest;
    var t := "\"" + f + "\"" + rest;
    assert line == Directive + (ws + t);
    assert line[..|Directive|] == Directive;
    var p := |Directive| + |ws|;
    assert line[p..] == t;
    assert t[1..] == f + ("\"" + rest);
  }

  lemma FirstQuote(f: string, t: string)
    requires Quote !in f && |t| > 0 && t[0] == Quote
    ensures Quote in f + t && IndexOfChar(f + t, Quote) == |f| && (f + t)[..|f|] == f
  {
    var s := f + t;
    assert s[|f|] == Quote;
    var i := IndexOfChar(s, Quote);
    assert s[..|f|] == f;
    forall j | 0 <= j < |f| ensures s[j] != Quote {
      assert s[j] == f[j];
    }
    CharBeforeFirst(s, Quote, i, |f|);
  }

  lemma CharBeforeFirst(s: string, c: char, i: nat, k: nat)
    requires i <= |s|
    ensures c !in s[..i] && k < i ==> s[k] != c
  {
    if k < i {
      assert s[..i][k] == s[k];
    }
  }

  /** Lines that do not start with the exact directive are kept. */
  lemma LowerCaseDirectiveIgnored(rest: string)
    ensures IncludeTarget("#+include:" + rest).None?
  {
    var line := "#+include:" + rest;
    assert line[2] == 'i' != Directive[2];
  }

  /** The name of the generated MDX file for an included Org file: the
      `.org` ending becomes `.shared.org.mdx`. */
  function SharedName(f: string): (r: string)
    requires EndsWith(f, ".org")
    ensures EndsWith(r, ".shared.org.mdx") && r[..|r| - |".shared.org.mdx"|] == f[..|f| - 4]
  {
    f[..|f| - 4] + ".shared.org.mdx"
  }

  /** The name as written: `includeFile.replace('.org', '.shared.org.mdx')`
      rewrites the first `.org`, wherever it is. */
  function SharedNameAsWritten(f: string): string {
    ReplaceFirst(f, ".org", ".shared.org.mdx")
  }

  /** A file name with `.org` inside it, not only at the end, gets the
      wrong name as written. */
  lemma EarlyOrgRewritten()
    ensures SharedNameAsWritten("a.orgs.org") == "a.shared.org.mdxs.org"
    ensures SharedName("a.orgs.org") == "a.orgs.shared.org.mdx"
  {
    AsWrittenSample();
    CorrectedSample();
  }

  lemma AsWrittenSample()
    ensures SharedNameAsWritten("a.orgs.org") == "a.shared.org.mdxs.org"
  {
    var f := "a.orgs.org";
    OrgAtOne();
    assert f[..1] == "a" && f[5..] == "s.org";
  }

  lemma CorrectedSample()
    ensures SharedName("a.orgs.org") == "a.orgs.shared.org.mdx"
  {
    var f := "a.orgs.org";
    assert f[6..] == ".org";
    assert f[..6] == "a.orgs";
  }

  lemma OrgAtOne()
    ensures IndexOf("a.orgs.org", ".org") == Some(1)
  {
    var f := "a.orgs.org";
    assert f[0..4][0] == 'a';
    assert f[1..5] == ".org";
    assert IndexOfFrom(f, ".org", 1) == Some(1);
  }

  /** When the only `.org` is the ending, both names agree. */
  lemma OnlyEndingAgrees(f: string)
    requires EndsWith(f, ".org")
    requires forall j :: 0 <= j < |f| - 4 ==> !OccursAt(f, j, ".org")
    ensures SharedNameAsWritten(f) == SharedName(f)
  {
    assert OccursAt(f, |f| - 4, ".org");
    assert IndexOf(f, ".org") == Some(|f| - 4);
  }

  /** The comment left for a directive whose file is already being included. */
  function CircularNote(f: string): string {
    "<!-- Circular include skipped: " + f + " -->"
  }

  /** The comment left for a directive whose file does not exist. */
  function MissingNote(f: string): string {
    "<!-- Include file not found: " + f + " -->"
  }

  /** What one line becomes. */
  function ExpandLine(line: string, base: string, visited: set<string>, env: IncludeEnv): (r: string)
    ensures IncludeTarget(line).None? ==> r == line
    decreases env.files.Keys - visited, 0
  {
    match IncludeTarget(line)
    case None => line
    case Some(f) =>
      var path := env.resolve(base, f);
      if path in visited then CircularNote(f)
      else if path !in env.files then MissingNote(f)
      else if EndsWith(f, ".org") then "<include>" + SharedName(f) + "</include>"
      else ExpandIncludes(env.files[path], env.dirname(path), visited + {path}, env)
  }

  /** `processIncludes`: the text's lines, each expanded, joined with `\n`.
      Paths in `visited` are the files being included on the way here. */
  function ExpandIncludes(content: string, base: string, visited: set<string>, env: IncludeEnv): string
    decreases env.files.Keys - visited, 2
  {
    Join(ExpandLines(SplitLines(content), base, visited, env), "\n")
  }

  function ExpandLines(lines: seq<string>, base: string, visited: set<string>, env: IncludeEnv): (r: seq<string>)
    ensures |r| == |lines|
    decreases env.files.Keys - visited, 1, |lines|
  {
    if |lines| == 0 then []
    else [ExpandLine(lines[0], base, visited, env)] + ExpandLines(lines[1..], base, visited, env)
  }

  /** Each line is expanded on its own: the k-th piece comes from the k-th
      line, and a line that is not a directive is kept. */
  lemma {:induction false} ExpandLinesPointwise(lines: seq<string>, base: string, visited: set<string>, env: IncludeEnv, k: nat)
    requires k < |lines|
    ensures ExpandLines(lines, base, visited, env)[k] == ExpandLine(lines[k], base, visited, env)
    decreases k
  {
    if k > 0 {
      ExpandLinesPointwise(lines[1..], base, visited, env, k - 1);
    }
  }

  /** A text with no directive line and no carriage return is left as it is. */
  lemma NoDirectiveUnchanged(content: string, base: string, visited: set<string>, env: IncludeEnv)
    requires '\r' !in content
    requires forall k :: 0 <= k < |SplitLines(content)| ==> IncludeTarget(SplitLines(content)[k]).None?
    ensures ExpandIncludes(content, base, visited, env) == content
  {
    var lines := SplitLines(content);
    forall k | 0 <= k < |lines| ensures ExpandLines(lines, base, visited, env)[k] == lines[k] {
      ExpandLinesPointwise(lines, base, visited, env, k);
    }
    assert ExpandLines(lines, base, visited, env) == lines;
    JoinSplitLines(content);
  }

  /** Splitting at line feeds and joining with line feeds gives the text
      back when it has no carriage return. */
  lemma {:induction false} JoinSplitLines(s: string)
    requires '\r' !in s
    ensures Join(SplitLines(s), "\n") == s
    decreases |s|
  {
    var n := IndexOf(s, "\n");
    if n.Some? {
      var i := n.value;
      var rest := s[i + 1..];
      SplitAtNewline(s, i);
      calc {
        Join(SplitLines(s), "\n");
        Join([s[..i]] + SplitLines(rest), "\n");
        { JoinCons(s[..i], SplitLines(rest), "\n"); }
        s[..i] + "\n" + Join(SplitLines(rest), "\n");
        { JoinSplitLines(rest); }
        s[..i] + "\n" + rest;
        s;
      }
    }
  }

  /** The first line feed of a text without carriage returns ends its
      first line as it is. */
  lemma SplitAtNewline(s: string, i: nat)
    requires '\r' !in s && IndexOf(s, "\n") == Some(i)
    ensures i < |s| && '\r' !in s[i + 1..]
    ensures SplitLines(s) == [s[..i]] + SplitLines(s[i + 1..])
    ensures s == s[..i] + "\n" + s[i + 1..]
  {
    assert s[i..i + 1] == "\n";
    assert [s[i]] == "\n";
    SplitAround(s, i);
    if i > 0 {
      assert s[i - 1] in s;
    }
    var rest := s[i + 1..];
    forall j | 0 <= j < |rest| ensures rest[j] != '\r' {
      assert rest[j] == s[i + 1 + j] && s[i + 1 + j] in s;
    }
  }

  /** A directive for a non-Org file that is not being included yet is
      replaced by that file's expanded text, expanded with the file marked
      as visited; so every directive inside it that leads back to the file
      becomes the circular-include comment, and the file is copied once. */
  lemma SelfIncludeExpandedOnce(line: string, base: string, visited: set<string>, env: IncludeEnv)
    requires IncludeTarget(line).Some? && !EndsWith(IncludeTarget(line).value, ".org")
    requires env.resolve(base, IncludeTarget(line).value) !in visited && env.resolve(base, IncludeTarget(line).value) in env.files
    ensures var path := env.resolve(base, IncludeTarget(line).value);
      var inner := SplitLines(env.files[path]);
      var out := ExpandLines(inner, env.dirname(path), visited + Single(path), env);
      ExpandLine(line, base, visited, env) == Join(out, "\n") &&
      forall k :: 0 <= k < |inner| && IncludeTarget(inner[k]).Some? && env.resolve(env.dirname(path), IncludeTarget(inner[k]).value) == path ==>
        out[k] == CircularNote(IncludeTarget(inner[k]).value)
  {
    var path := env.resolve(base, IncludeTarget(line).value);
    var inner := SplitLines(env.files[path]);
    forall k | 0 <= k < |inner| && IncludeTarget(inner[k]).Some? && env.resolve(env.dirname(path), IncludeTarget(inner[k]).value) == path
      ensures ExpandLines(inner, env.dirname(path), visited + Single(path), env)[k] == CircularNote(IncludeTarget(inner[k]).value)
    {
      ExpandLinesPointwise(inner, env.dirname(path), visited + Single(path), env, k);
    }
  }

  /** A one-line non-Org file whose only line includes the file itself
      expands to the circular-include comment: the copy is made once, and
      the directive inside it is skipped. */
  lemma SelfIncludeOneLine(line: string, base: string, visited: set<string>, env: IncludeEnv)
    requires '\n' !in line
    requires IncludeTarget(line).Some? && !EndsWith(IncludeTarget(line).value, ".org")
    requires env.resolve(base, IncludeTarget(line).value) !in visited
    requires env.resolve(base, IncludeTarget(line).value) in env.files && env.files[env.resolve(base, IncludeTarget(line).value)] == line
    requires env.resolve(env.dirname(env.resolve(base, IncludeTarget(line).value)), IncludeTarget(line).value) == env.resolve(base, IncludeTarget(line).value)
    ensures ExpandIncludes(line, base, visited, env) == CircularNote(IncludeTarget(line).value)
  {
    var f := IncludeTarget(line).value;
    var path := env.resolve(base, f);
    SingleLine(line, base, visited, env);
    SingleLine(line, env.dirname(path), visited + Single(path), env);
  }

  /** In the corrected expansion, a one-line Org file that includes itself
      becomes the `<include>` tag for its shared name, at once. */
  lemma SelfOrgIncludeTagged(line: string, base: string, visited: set<string>, env: IncludeEnv)
    requires '\n' !in line
    requires IncludeTarget(line).Some? && EndsWith(IncludeTarget(line).value, ".org")
    requires env.resolve(base, IncludeTarget(line).value) !in visited
    requires env.resolve(base, IncludeTarget(line).value) in env.files && env.files[env.resolve(base, IncludeTarget(line).value)] == line
    ensures ExpandIncludes(line, base, visited, env) == "<include>" + SharedName(IncludeTarget(line).value) + "</include>"
  {
    SingleLine(line, base, visited, env);
  }

  /** A text of one line is that line expanded. */
  lemma SingleLine(line: string, base: string, visited: set<string>, env: IncludeEnv)
    requires '\n' !in line
    ensures ExpandIncludes(line, base, visited, env) == ExpandLine(line, base, visited, env)
  {
    NoNewlineIndex(line);
    assert SplitLines(line) == [line];
  }

  // ---------------------------------------------------------------------
  // The expansion as written. For an Org file it first expands the file
  // with itself marked as visited and throws the result away, then
  // converts the file, and that conversion expands its includes again
  // starting from an empty visited set; the tag names the file with the
  // first `.org` rewritten. `fuel` bounds the depth of nested file reads:
  // `None` means no result within that depth.

  /** `processIncludes` as written, on a whole text. */
  function ExpandIncludesAsWritten(content: string, base: string, visited: set<string>, env: IncludeEnv, fuel: nat): Option<string>
    decreases fuel, 1
  {
    match ExpandLinesAsWritten(SplitLines(content), base, visited, env, fuel)
    case None => None
    case Some(ls) => Some(Join(ls, "\n"))
  }

  function ExpandLinesAsWritten(lines: seq<string>, base: string, visited: set<string>, env: IncludeEnv, fuel: nat): (r: Option<seq<string>>)
    ensures r.Some? ==> |r.value| == |lines|
    decreases fuel, 0, |lines|
  {
    if |lines| == 0 then Some([])
    else
      match ExpandLineAsWritten(lines[0], base, visited, env, fuel)
      case None => None
      case Some(x) =>
        match ExpandLinesAsWritten(lines[1..], base, visited, env, fuel)
        case None => None
        case Some(xs) => Some([x] + xs)
  }

  /** One line as written. */
  function ExpandLineAsWritten(line: string, base: string, visited: set<string>, env: IncludeEnv, fuel: nat): (r: Option<string>)
    ensures IncludeTarget(line).None? ==> r == Some(line)
    decreases fuel, 0, 0
  {
    match IncludeTarget(line)
    case None => Some(line)
    case Some(f) =>
      var path := env.resolve(base, f);
      if path in visited then Some(CircularNote(f))
      else if path !in env.files then Some(MissingNote(f))
      else if fuel == 0 then None
      else
        var inner := ExpandIncludesAsWritten(env.files[path], env.dirname(path), visited + {path}, env, fuel - 1);
        if inner.None? then None
        else if EndsWith(f, ".org") then
          if ExpandIncludesAsWritten(env.files[path], env.dirname(path), {}, env, fuel - 1).None? then None
          else Some("<include>" + SharedNameAsWritten(f) + "</include>")
        else inner
  }

  /** An Org file that includes itself is never done: each conversion of
      it starts a fresh expansion of the same file, at any depth bound. */
  lemma {:induction false} SelfOrgIncludeDiverges(line: string, base: string, visited: set<string>, env: IncludeEnv, fuel: nat)
    requires '\n' !in line
    requires IncludeTarget(line).Some? && EndsWith(IncludeTarget(line).value, ".org")
    requires env.resolve(base, IncludeTarget(line).value) !in visited
    requires env.resolve(base, IncludeTarget(line).value) in env.files && env.files[env.resolve(base, IncludeTarget(line).value)] == line
    requires env.resolve(env.dirname(env.resolve(base, IncludeTarget(line).value)), IncludeTarget(line).value) == env.resolve(base, IncludeTarget(line).value)
    ensures ExpandIncludesAsWritten(line, base, visited, env, fuel).None?
    decreases fuel
  {
    var f := IncludeTarget(line).value;
    var path := env.resolve(base, f);
    SingleLineAsWritten(line, base, visited, env, fuel);
    if fuel > 0 {
      var b := env.dirname(path);
      SingleLineAsWritten(line, b, visited + {path}, env, fuel - 1);
      SelfOrgIncludeDiverges(line, b, NoStrings, env, fuel - 1);
    }
  }

  /** A text of one line is that line expanded, as written too. */
  lemma SingleLineAsWritten(line: string, base: string, visited: set<string>, env: IncludeEnv, fuel: nat)
    requires '\n' !in line
    ensures ExpandIncludesAsWritten(line, base, visited, env, fuel) == ExpandLineAsWritten(line, base, visited, env, fuel)
  {
    NoNewlineIndex(line);
    assert SplitLines(line) == [line];
    assert [line][1..] == [];
    match ExpandLineAsWritten(line, base, visited, env, fuel)
    case None =>
    case Some(x) =>
      assert [line][0] == line;
      assert ExpandLinesAsWritten([line][1..], base, visited, env, fuel) == Some([]);
      assert [x] + [] == [x];
      assert ExpandLinesAsWritten([line], base, visited, env, fuel) == Some([x]);
  }

  /** The names of included Org files have `.org` only at the end. */
  predicate OrgNameEndOnly(line: string) {
    IncludeTarget(line).None? || !EndsWith(IncludeTarget(line).value, ".org") ||
    forall j :: 0 <= j < |IncludeTarget(line).value| - 4 ==> !OccursAt(IncludeTarget(line).value, j, ".org")
  }

  predicate TextNamesEndOnly(content: string) {
    forall k :: 0 <= k < |SplitLines(content)| ==> OrgNameEndOnly(SplitLines(content)[k])
  }

  predicate FilesNamesEndOnly(env: IncludeEnv) {
    forall p :: p in env.files ==> TextNamesEndOnly(env.files[p])
  }

  /** Whenever the expansion as written finishes, and no included Org file
      has `.org` before its ending, it gives the corrected expansion. */
  lemma {:induction false} LineAsWrittenAgrees(line: string, base: string, visited: set<string>, env: IncludeEnv, fuel: nat)
    requires OrgNameEndOnly(line) && FilesNamesEndOnly(env)
    ensures ExpandLineAsWritten(line, base, visited, env, fuel).Some? ==>
      ExpandLineAsWritten(line, base, visited, env, fuel).value == ExpandLine(line, base, visited, env)
    decreases fuel, 0, 0
  {
    match IncludeTarget(line)
    case None =>
    case Some(f) =>
      var path := env.resolve(base, f);
      if path !in visited && path in env.files && fuel > 0 {
        TextAsWrittenAgrees(env.files[path], env.dirname(path), visited + {path}, env, fuel - 1);
        if EndsWith(f, ".org") {
          OnlyEndingAgrees(f);
        }
      }
  }

  lemma {:induction false} LinesAsWrittenAgree(lines: seq<string>, base: string, visited: set<string>, env: IncludeEnv, fuel: nat)
    requires forall k :: 0 <= k < |lines| ==> OrgNameEndOnly(lines[k])
    requires FilesNamesEndOnly(env)
    ensures ExpandLinesAsWritten(lines, base, visited, env, fuel).Some? ==>
      ExpandLinesAsWritten(lines, base, visited, env, fuel).value == ExpandLines(lines, base, visited, env)
    decreases fuel, 0, |lines|
  {
    if |lines| > 0 {
      LineAsWrittenAgrees(lines[0], base, visited, env, fuel);
      LinesAsWrittenAgree(lines[1..], base, visited, env, fuel);
    }
  }

  lemma {:induction false} TextAsWrittenAgrees(content: string, base: string, visited: set<string>, env: IncludeEnv, fuel: nat)
    requires TextNamesEndOnly(content) && FilesNamesEndOnly(env)
    ensures ExpandIncludesAsWritten(content, base, visited, env, fuel).Some? ==>
      ExpandIncludesAsWritten(content, base, visited, env, fuel).value == ExpandIncludes(content, base, visited, env)
    decreases fuel, 1
  {
    LinesAsWrittenAgree(SplitLines(content), base, visited, env, fuel);
  }
}
