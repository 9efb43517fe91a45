/** The webpack loader's validation side: frontmatter is checked against
    the schema of the collection the file belongs to, and schema failures
    are reported as a `ValidationError` whose message lists one issue per
    line. Loading the configuration module is a parameter: `collections`
    is None when the import fails or the configuration has none. */
module Loader {
  import opened Wrappers
  import opened Text

  /** One schema issue: its field path, if any, and its message. */
  datatype Issue = Issue(path: Option<seq<string>>, message: string)

  /** `issue.path?.join('.') || '*'`. */
  function PathText(path: Option<seq<string>>): (r: string)
    ensures r != ""
    ensures path.Some? && Join(path.value, ".") != "" ==> r == Join(path.value, ".")
  {
    if path.Some? && Join(path.value, ".") != "" then Join(path.value, ".") else "*"
  }

  /** A path joins to nothing exactly when it is empty or one empty
      segment; those show as `*`, like a missing path. */
  lemma EmptyJoin(p: seq<string>)
    ensures Join(p, ".") == "" <==> p == [] || p == [""]
  {
    if |p| >= 2 {
      assert |Join(p, ".")| >= 1;
    }
  }

  function IssueLine(i: Issue): string {
    "  " + PathText(i.path) + ": " + i.message
  }

  function IssueLines(iss: seq<Issue>): (r: seq<string>)
    ensures |r| == |iss| && forall k :: 0 <= k < |iss| ==> r[k] == IssueLine(iss[k])
  {
    seq(|iss|, k requires 0 <= k < |iss| => IssueLine(iss[k]))
  }

  /** The `Error` message of a `ValidationError`: the title, a colon, a
      line break and a space, then the issue lines. */
  function ValidationMessage(title: string, iss: seq<Issue>): string {
    title + ":\n " + Join(IssueLines(iss), "\n")
  }

  datatype ValidationError = ValidationError(title: string, issues: seq<Issue>, message: string)

  function NewValidationError(title: string, iss: seq<Issue>): (e: ValidationError)
    ensures e.title == title && e.issues == iss
  {
    ValidationError(title, iss, ValidationMessage(title, iss))
  }

  /** `toStringFormatted` without colours: a `[ORG]` title line, then one
      `  - path: message` line per issue. */
  function FormattedFallback(e: ValidationError): string {
    "[ORG] " + e.title + ":\n" + Join(FallbackLines(e.issues), "\n")
  }

  function FallbackLines(iss: seq<Issue>): (r: seq<string>)
    ensures |r| == |iss| && forall k :: 0 <= k < |iss| ==> r[k] == "  - " + PathText(iss[k].path) + ": " + iss[k].message
  {
    seq(|iss|, k requires 0 <= k < |iss| => "  - " + PathText(iss[k].path) + ": " + iss[k].message)
  }

  /** A title and issues with no line break in them. */
  predicate SingleLineParts(title: string, iss: seq<Issue>) {
    NoLineTerminator(title) &&
    forall k :: 0 <= k < |iss| ==> NoLineTerminator(PathText(iss[k].path)) && NoLineTerminator(iss[k].message)
  }

  lemma NoTerminatorConcat(a: string, b: string)
    requires NoLineTerminator(a) && NoLineTerminator(b)
    ensures NoLineTerminator(a + b)
  {
    assert forall i :: 0 <= i < |a + b| ==> (a + b)[i] == if i < |a| then a[i] else b[i - |a|];
  }

  lemma LineIsClean(title: string, iss: seq<Issue>, k: nat)
    requires SingleLineParts(title, iss) && k < |iss|
    ensures NoLineTerminator(IssueLine(iss[k])) && NoLineTerminator(" " + IssueLine(iss[k]))
    ensures NoLineTerminator("  - " + PathText(iss[k].path) + ": " + iss[k].message)
  {
    var p := PathText(iss[k].path);
    var m := iss[k].message;
    NoTerminatorConcat("  ", p);
    NoTerminatorConcat("  " + p, ": ");
    NoTerminatorConcat("  " + p + ": ", m);
    NoTerminatorConcat(" ", IssueLine(iss[k]));
    NoTerminatorConcat("  - ", p);
    NoTerminatorConcat("  - " + p, ": ");
    NoTerminatorConcat("  - " + p + ": ", m);
  }

  lemma CleanLinesSplit(lines: seq<string>)
    requires |lines| >= 1 && forall k :: 0 <= k < |lines| ==> NoLineTerminator(lines[k])
    ensures SplitLines(Join(lines, "\n")) == lines
  {
    forall k | 0 <= k < |lines| ensures '\n' !in lines[k] {
      assert forall j :: 0 <= j < |lines[k]| ==> lines[k][j] != '\n';
    }
    forall k | 0 <= k < |lines| - 1 ensures |lines[k]| == 0 || lines[k][|lines[k]| - 1] != '\r' {
    }
    SplitJoinLines(lines);
  }

  /** The message read line by line: the title with its colon, the first
      issue line behind one more space (three in all), the other issue
      lines as they are; with no issues, a second line of one space. */
  lemma {:induction false} MessageLines(title: string, iss: seq<Issue>)
    requires SingleLineParts(title, iss)
    ensures |iss| == 0 ==> SplitLines(ValidationMessage(title, iss)) == [title + ":", " "]
    ensures |iss| > 0 ==>
      SplitLines(ValidationMessage(title, iss)) == [title + ":", " " + IssueLine(iss[0])] + IssueLines(iss)[1..]
  {
    NoTerminatorConcat(title, ":");
    var ls := IssueLines(iss);
    if |iss| == 0 {
      var lines := [title + ":", " "];
      assert Join(lines, "\n") == title + ":" + "\n" + " ";
      assert ValidationMessage(title, iss) == Join(lines, "\n");
      CleanLinesSplit(lines);
    } else {
      var lines := [title + ":", " " + ls[0]] + ls[1..];
      forall k | 0 <= k < |lines| ensures NoLineTerminator(lines[k]) {
        if k >= 1 {
          LineIsClean(title, iss, k - 1);
        }
      }
      calc {
        Join(lines, "\n");
        { assert lines == [title + ":"] + ([" " + ls[0]] + ls[1..]);
          JoinCons(title + ":", [" " + ls[0]] + ls[1..], "\n"); }
        title + ":" + "\n" + Join([" " + ls[0]] + ls[1..], "\n");
        { JoinSpaceHead(ls); }
        title + ":" + "\n" + (" " + Join(ls, "\n"));
        ValidationMessage(title, iss);
      }
      CleanLinesSplit(lines);
    }
  }

  /** A space in front of the first part is a space in front of the join. */
  lemma JoinSpaceHead(ls: seq<string>)
    requires |ls| >= 1
    ensures Join([" " + ls[0]] + ls[1..], "\n") == " " + Join(ls, "\n")
  {
    var lines := [" " + ls[0]] + ls[1..];
    if |ls| == 1 {
      assert lines == [" " + ls[0]];
    } else {
      var rest := Join(ls[1..], "\n");
      calc {
        Join(lines, "\n");
        lines[0] + "\n" + Join(lines[1..], "\n");
        { assert lines[1..] == ls[1..]; }
        (" " + ls[0]) + "\n" + rest;
        { SeqAssoc3(" ", ls[0], "\n", rest); }
        " " + (ls[0] + "\n" + rest);
        " " + Join(ls, "\n");
      }
    }
  }

  lemma SeqAssoc3(a: string, b: string, c: string, d: string)
    ensures (a + b) + c + d == a + (b + c + d)
  {
  }

  /** The colourless report read line by line: the `[ORG]` title line,
      then each issue as a `  - ` line. */
  lemma {:induction false} FallbackLinesOf(e: ValidationError)
    requires SingleLineParts(e.title, e.issues) && |e.issues| > 0
    ensures SplitLines(FormattedFallback(e)) == ["[ORG] " + e.title + ":"] + FallbackLines(e.issues)
  {
    NoTerminatorConcat("[ORG] ", e.title);
    NoTerminatorConcat("[ORG] " + e.title, ":");
    var ls := FallbackLines(e.issues);
    var lines := ["[ORG] " + e.title + ":"] + ls;
    forall k | 0 <= k < |lines| ensures NoLineTerminator(lines[k]) {
      if k >= 1 {
        LineIsClean(e.title, e.issues, k - 1);
      }
    }
    calc {
      Join(lines, "\n");
      { JoinCons("[ORG] " + e.title + ":", ls, "\n"); }
      "[ORG] " + e.title + ":" + "\n" + Join(ls, "\n");
      FormattedFallback(e);
    }
    CleanLinesSplit(lines);
  }

  // ---------------------------------------------------------------------
  // validate

  datatype Context = Context(source: string, path: string)

  /** What a Standard Schema `validate` returns; present issues, even an
      empty list, mean failure. */
  datatype StandardResult<D> = StandardResult(value: D, issues: Option<seq<Issue>>)

  /** A Zod issue; only its path and message are reported. */
  datatype ZodIssue = ZodIssue(path: seq<string>, message: string, code: string)

  /** What `parseAsync` does: resolve with a value, or reject with an
      error that may carry `errors`. */
  datatype ParseOutcome<D, E> = Parsed(value: D) | ParseThrew(errors: Option<seq<ZodIssue>>, error: E)

  /** A schema once any factory has been applied: one with `~standard`,
      an object with `parse`, or anything else (another function
      included), which does not validate. */
  datatype Resolved<!D, E> =
    | Standard(validate: D -> StandardResult<D>)
    | Zod(parseAsync: D -> ParseOutcome<D, E>)
    | NoCheck

  /** A configured schema: used as it is, or a function without
      `~standard`, called once with the context. */
  datatype Schema<!D, E> = Direct(resolved: Resolved<D, E>) | Factory(make: Context -> Resolved<D, E>)

  datatype Outcome<D, E> = Validated(value: D) | Invalid(failure: ValidationError) | Rethrown(error: E)

  function ZodIssues(errs: seq<ZodIssue>): (r: seq<Issue>)
    ensures |r| == |errs|
    ensures forall k :: 0 <= k < |errs| ==> r[k].path == Some(errs[k].path) && r[k].message == errs[k].message
  {
    seq(|errs|, k requires 0 <= k < |errs| => Issue(Some(errs[k].path), errs[k].message))
  }

  function Resolve<D, E>(schema: Schema<D, E>, ctx: Context): Resolved<D, E> {
    match schema
    case Direct(s) => s
    case Factory(make) => make(ctx)
  }

  /** `validate`. */
  function Validate<D, E>(schema: Schema<D, E>, data: D, ctx: Context, errorMessage: string): (r: Outcome<D, E>)
    ensures r.Invalid? ==> r.failure.title == errorMessage && r.failure.message == ValidationMessage(errorMessage, r.failure.issues)
    ensures Resolve(schema, ctx).NoCheck? ==> r == Validated(data)
    ensures Resolve(schema, ctx).Standard? ==> (
      var res := Resolve(schema, ctx).validate(data);
      r == if res.issues.Some? then Invalid(NewValidationError(errorMessage, res.issues.value)) else Validated(res.value))
    ensures Resolve(schema, ctx).Zod? && Resolve(schema, ctx).parseAsync(data).Parsed? ==>
      r == Validated(Resolve(schema, ctx).parseAsync(data).value)
  {
    match Resolve(schema, ctx)
    case NoCheck => Validated(data)
    case Standard(v) =>
      var res := v(data);
      if res.issues.Some? then Invalid(NewValidationError(errorMessage, res.issues.value)) else Validated(res.value)
    case Zod(parse) =>
      match parse(data)
      case Parsed(value) => Validated(value)
      case ParseThrew(errors, error) =>
        if errors.Some? then Invalid(NewValidationError(errorMessage, ZodIssues(errors.value))) else Rethrown(error)
  }

  /** A Zod rejection carrying `errors` becomes a validation error listing
      each one's path and message in order; one without is passed on. */
  lemma ZodRejection<D, E>(schema: Schema<D, E>, data: D, ctx: Context, msg: string)
    requires Resolve(schema, ctx).Zod? && Resolve(schema, ctx).parseAsync(data).ParseThrew?
    ensures var t := Resolve(schema, ctx).parseAsync(data);
      var r := Validate(schema, data, ctx, msg);
      (t.errors.None? ==> r == Rethrown(t.error)) &&
      (t.errors.Some? ==> r.Invalid? && |r.failure.issues| == |t.errors.value|) &&
      (t.errors.Some? ==> forall k :: 0 <= k < |t.errors.value| ==>
        r.failure.issues[k].path == Some(t.errors.value[k].path) && r.failure.issues[k].message == t.errors.value[k].message)
  {
  }

  /** A factory is applied once, to the loader's context; what it returns
      is then treated like a schema given directly. */
  lemma FactoryAppliedOnce<D, E>(make: Context -> Resolved<D, E>, data: D, ctx: Context, msg: string)
    ensures Validate(Factory(make), data, ctx, msg) == Validate(Direct(make(ctx)), data, ctx, msg)
  {
  }

  /** A Standard Schema result with an empty issue list still fails. */
  lemma EmptyIssueListFails<D, E>(v: D -> StandardResult<D>, data: D, ctx: Context, msg: string)
    requires v(data).issues == Some([])
    ensures Validate<D, E>(Direct(Standard(v)), data, ctx, msg).Invalid?
    ensures NoLineTerminator(msg) ==> SplitLines(Validate<D, E>(Direct(Standard(v)), data, ctx, msg).failure.message) == [msg + ":", " "]
  {
    if NoLineTerminator(msg) {
      MessageLines(msg, []);
    }
  }

  // ---------------------------------------------------------------------
  // getCollectionConfig

  /** `filePath.replace(cwd, '').replace(/^\//, '')`: the first occurrence
      of the working directory removed, then one leading slash. */
  function RelativePath(filePath: string, cwd: string): (r: string)
    ensures var t := ReplaceFirst(filePath, cwd, "");
      (StartsWith(t, "/") ==> "/" + r == t) && (!StartsWith(t, "/") ==> r == t)
  {
    var t := ReplaceFirst(filePath, cwd, "");
    if StartsWith(t, "/") then t[1..] else t
  }

  /** A file under the working directory gets its path below it. */
  lemma RelativeUnderCwd(cwd: string, rel: string)
    ensures RelativePath(cwd + "/" + rel, cwd) == rel
  {
    var f := cwd + "/" + rel;
    assert OccursAt(f, 0, cwd) by {
      assert f[..|cwd|] == cwd;
    }
    assert IndexOf(f, cwd) == Some(0);
    assert f[|cwd|..] == "/" + rel;
    assert ReplaceFirst(f, cwd, "") == "/" + rel;
  }

  /** A collection's `dir`: missing, one directory, or several. */
  datatype Dir = NoDir | OneDir(dir: string) | ManyDirs(dirs: seq<string>)

  /** `Array.isArray(dir) ? dir : [dir]`, with `startsWith` turning a
      missing directory into the text `undefined`. */
  function DirList(d: Dir): (r: seq<string>)
    ensures d.NoDir? ==> r == ["undefined"]
  {
    match d
    case NoDir => ["undefined"]
    case OneDir(x) => [x]
    case ManyDirs(xs) => xs
  }

  predicate MatchesDir(d: Dir, rel: string) {
    exists k :: 0 <= k < |DirList(d)| && StartsWith(rel, DirList(d)[k])
  }

  /** A collection without `dir` claims exactly the paths starting with
      `undefined`. */
  lemma MissingDirMatchesUndefined(rel: string)
    ensures MatchesDir(NoDir, rel) <==> StartsWith(rel, "undefined")
  {
    if StartsWith(rel, "undefined") {
      assert StartsWith(rel, DirList(NoDir)[0]);
    }
  }

  datatype DocsPart<S> = DocsPart(schema: Option<S>)

  /** One entry of `config.collections`. */
  datatype CollectionEntry<S> = CollectionEntry(name: string, kind: string, dir: Dir, schema: Option<S>, docs: Option<DocsPart<S>>)

  datatype CollectionConfig<S> = CollectionConfig(schema: Option<S>, kind: string)

  /** What a matching collection yields: its schema and type for `doc` and
      `meta`, the docs schema for `docs` with a docs part, nothing else. */
  function ConfigOf<S>(e: CollectionEntry<S>): (r: Option<CollectionConfig<S>>)
    ensures r.Some? <==> e.kind == "doc" || (e.kind == "docs" && e.docs.Some?) || e.kind == "meta"
    ensures r.Some? ==> r.value.kind == e.kind
    ensures r.Some? && e.kind != "docs" ==> r.value.schema == e.schema
    ensures r.Some? && e.kind == "docs" ==> r.value.schema == e.docs.value.schema
  {
    if e.kind == "doc" then Some(CollectionConfig(e.schema, "doc"))
    else if e.kind == "docs" && e.docs.Some? then Some(CollectionConfig(e.docs.value.schema, "docs"))
    else if e.kind == "meta" then Some(CollectionConfig(e.schema, "meta"))
    else None
  }

  predicate Selects<S>(e: CollectionEntry<S>, rel: string) {
    MatchesDir(e.dir, rel) && ConfigOf(e).Some?
  }

  /** Entry `i` selects the file and no earlier entry does. */
  predicate FirstSelecting<S>(entries: seq<CollectionEntry<S>>, rel: string, i: nat)
    requires i < |entries|
  {
    Selects(entries[i], rel) && forall j :: 0 <= j < i ==> !Selects(entries[j], rel)
  }

  /** The loop over the collections: the first one whose directory matches
      and whose type is recognised decides; a matching collection of
      another type is passed over. */
  function FindCollection<S>(entries: seq<CollectionEntry<S>>, rel: string): (r: Option<CollectionConfig<S>>)
    ensures r.Some? <==> exists i :: 0 <= i < |entries| && Selects(entries[i], rel)
    ensures r.Some? ==> exists i :: 0 <= i < |entries| && FirstSelecting(entries, rel, i) && r == ConfigOf(entries[i])
  {
    if |entries| == 0 then None
    else if Selects(entries[0], rel) then ConfigOf(entries[0])
    else
      var r := FindCollection(entries[1..], rel);
      FirstSelectingShift(entries, rel, r);
      r
  }

  /** A first selecting collection of the tail, behind a head that does
      not select, is the first one of the whole list. */
  lemma FirstSelectingShift<S>(entries: seq<CollectionEntry<S>>, rel: string, r: Option<CollectionConfig<S>>)
    requires |entries| > 0 && !Selects(entries[0], rel)
    requires r.Some? <==> exists i :: 0 <= i < |entries[1..]| && Selects(entries[1..][i], rel)
    requires r.Some? ==> exists i :: 0 <= i < |entries[1..]| && FirstSelecting(entries[1..], rel, i) && r == ConfigOf(entries[1..][i])
    ensures r.Some? <==> exists i :: 0 <= i < |entries| && Selects(entries[i], rel)
    ensures r.Some? ==> exists i :: 0 <= i < |entries| && FirstSelecting(entries, rel, i) && r == ConfigOf(entries[i])
  {
    assert forall i :: 1 <= i < |entries| ==> entries[i] == entries[1..][i - 1];
    if r.Some? {
      var i :| 0 <= i < |entries[1..]| && FirstSelecting(entries[1..], rel, i) && r == ConfigOf(entries[1..][i]);
      assert Selects(entries[i + 1], rel) && r == ConfigOf(entries[i + 1]);
      assert forall j :: 0 <= j < i + 1 ==> !Selects(entries[j], rel);
      assert FirstSelecting(entries, rel, i + 1);
    }
  }

  /** `getCollectionConfig`: null when the configuration could not be
      loaded or has no collections, otherwise the first selecting one. */
  function GetCollectionConfig<S>(collections: Option<seq<CollectionEntry<S>>>, filePath: string, cwd: string): (r: Option<CollectionConfig<S>>)
    ensures collections.None? ==> r.None?
    ensures collections.Some? ==> r == FindCollection(collections.value, RelativePath(filePath, cwd))
  {
    if collections.None? then None else FindCollection(collections.value, RelativePath(filePath, cwd))
  }

  /** Putting a collection in front changes the answer only for files it
      selects itself. */
  lemma {:induction false} EarlierCollectionWins<S>(e: CollectionEntry<S>, rest: seq<CollectionEntry<S>>, rel: string)
    ensures FindCollection([e] + rest, rel) == if Selects(e, rel) then ConfigOf(e) else FindCollection(rest, rel)
  {
    assert ([e] + rest)[0] == e && ([e] + rest)[1..] == rest;
  }
}
