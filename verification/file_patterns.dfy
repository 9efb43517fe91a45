/** The docs-collection glue of both packages: `extendFilePatterns` adds an
    Org variant to every Markdown file pattern, `defineDocs` applies it to
    the configured patterns or supplies a default, and `defineConfig` puts
    the Org support plugin in front of the user's plugins. */
module FilePatterns {
  import opened Wrappers
  import opened Text

  const BraceGroup: string := "{mdx,md}"
  const BraceGroupWithOrg: string := "{mdx,md,org}"

  /** `**` and `/` and `*`: any file at any depth. */
  const AnyFile: string := "**/" + "*"
  const MdxFiles: string := AnyFile + ".mdx"
  const MdFiles: string := AnyFile + ".md"
  const OrgFiles: string := AnyFile + ".org"
  const BraceFiles: string := AnyFile + "." + BraceGroup
  const BraceFilesWithOrg: string := AnyFile + "." + BraceGroupWithOrg

  /** `pattern.replace(/\.(mdx|md)$/, '')`: the Markdown extension at the
      very end removed, the pattern otherwise kept. */
  function StripMarkdownExtension(p: string): (r: string)
    ensures EndsWith(p, ".mdx") ==> p == r + ".mdx"
    ensures !EndsWith(p, ".mdx") && EndsWith(p, ".md") ==> p == r + ".md"
    ensures !EndsWith(p, ".mdx") && !EndsWith(p, ".md") ==> r == p
  {
    if EndsWith(p, ".mdx") then p[..|p| - 4]
    else if EndsWith(p, ".md") then p[..|p| - 3]
    else p
  }

  /** A pattern the rule turns into two: it mentions Markdown but not as
      the brace group. */
  predicate TwoWay(p: string) {
    !Contains(p, BraceGroup) && (Contains(p, "mdx") || Contains(p, "md"))
  }

  /** What one pattern becomes. */
  function ExtendPattern(p: string): (r: seq<string>)
    ensures |r| == (if TwoWay(p) then 2 else 1)
    ensures r[0] == (if Contains(p, BraceGroup) then ReplaceFirst(p, BraceGroup, BraceGroupWithOrg) else p)
  {
    if Contains(p, BraceGroup) then [ReplaceFirst(p, BraceGroup, BraceGroupWithOrg)]
    else if Contains(p, "mdx") || Contains(p, "md") then [p, StripMarkdownExtension(p) + ".org"]
    else [p]
  }

  /** `extendFilePatterns`: each pattern's expansion, in order, flattened. */
  function ExtendFilePatterns(ps: seq<string>): (r: seq<string>)
    ensures |r| == |ps| + CountTwoWay(ps)
  {
    if |ps| == 0 then [] else ExtendPattern(ps[0]) + ExtendFilePatterns(ps[1..])
  }

  function CountTwoWay(ps: seq<string>): nat {
    if |ps| == 0 then 0 else (if TwoWay(ps[0]) then 1 else 0) + CountTwoWay(ps[1..])
  }

  /** The expansion keeps the input order: expanding a concatenation is
      concatenating the expansions. */
  lemma {:induction false} ExtendAppend(a: seq<string>, b: seq<string>)
    ensures ExtendFilePatterns(a + b) == ExtendFilePatterns(a) + ExtendFilePatterns(b)
    decreases |a|
  {
    if |a| > 0 {
      assert (a + b)[1..] == a[1..] + b;
      ExtendAppend(a[1..], b);
    } else {
      assert a + b == b;
    }
  }

  /** Where a pattern may come from. */
  predicate DerivedFrom(q: string, p: string) {
    (q == p && !Contains(p, BraceGroup)) ||
    (Contains(p, BraceGroup) && q == ReplaceFirst(p, BraceGroup, BraceGroupWithOrg)) ||
    (TwoWay(p) && q == StripMarkdownExtension(p) + ".org")
  }

  /** Every input pattern is kept (or, for the brace group, widened), each
      Markdown pattern gains its Org variant, and nothing else appears. */
  lemma {:induction false} ExtendCovers(ps: seq<string>)
    ensures forall p :: p in ps && !Contains(p, BraceGroup) ==> p in ExtendFilePatterns(ps)
    ensures forall p :: p in ps && Contains(p, BraceGroup) ==>
      ReplaceFirst(p, BraceGroup, BraceGroupWithOrg) in ExtendFilePatterns(ps)
    ensures forall p :: p in ps && TwoWay(p) ==> StripMarkdownExtension(p) + ".org" in ExtendFilePatterns(ps)
    ensures forall q :: q in ExtendFilePatterns(ps) ==> exists p :: p in ps && DerivedFrom(q, p)
    decreases |ps|
  {
    if |ps| > 0 {
      ExtendCovers(ps[1..]);
      var h := ExtendPattern(ps[0]);
      var t := ExtendFilePatterns(ps[1..]);
      assert ExtendFilePatterns(ps) == h + t;
      forall q | q in h ensures DerivedFrom(q, ps[0]) {
      }
      forall q | q in t ensures exists p :: p in ps && DerivedFrom(q, p) {
        var p :| p in ps[1..] && DerivedFrom(q, p);
        assert p in ps;
      }
      assert forall p :: p in ps ==> p == ps[0] || p in ps[1..];
    }
  }

  /** A pattern mentioning `mdx` mentions `md`: the first half of the
      Markdown test never decides anything. */
  lemma MdxMentionsMd(p: string)
    ensures Contains(p, "mdx") ==> Contains(p, "md")
  {
    if Contains(p, "mdx") {
      var i := IndexOf(p, "mdx").value;
      assert p[i..i + 2] == p[i..i + 3][..2];
      assert OccursAt(p, i, "md");
    }
  }

  const CmdText: string := "cmd/" + "*.txt"

  /** `md` anywhere counts, even in a directory name: a text-file pattern
      under `cmd/` gains an Org variant. */
  lemma MdInDirectoryName()
    ensures ExtendPattern(CmdText) == [CmdText, CmdText + ".org"]
  {
    var p := CmdText;
    assert OccursAt(p, 1, "md");
    AbsentFirstChar(p, BraceGroup);
    NotEndingWith(p, ".mdx");
    NotEndingWith(p, ".md");
    assert Contains(p, "md");
    assert StripMarkdownExtension(p) == p;
    assert ExtendPattern(p) == [p, p + ".org"];
    assert p + ".org" == CmdText + ".org";
  }

  /** A pattern whose first character is missing from `s` is not in `s`. */
  lemma AbsentFirstChar(s: string, p: string)
    requires |p| > 0 && p[0] !in s
    ensures !Contains(s, p)
  {
    forall j | 0 <= j <= |s| ensures !OccursAt(s, j, p) {
      if j < |s| {
        assert s[j] in s;
      }
    }
  }

  /** An occurrence is the first one when the pattern's first character
      does not appear before it. */
  lemma FirstOccurrenceAt(s: string, p: string, i: nat)
    requires OccursAt(s, i, p) && |p| > 0 && p[0] !in s[..i]
    ensures IndexOf(s, p) == Some(i)
  {
    forall j | 0 <= j < i ensures !OccursAt(s, j, p) {
      assert s[..i][j] == s[j];
    }
  }

  lemma NotEndingWith(s: string, p: string)
    requires |p| > 0 && |s| > 0 && s[|s| - 1] != p[|p| - 1]
    ensures !EndsWith(s, p)
  {
    if |p| <= |s| {
      assert s[|s| - |p|..][|p| - 1] == s[|s| - 1];
    }
  }

  // ---------------------------------------------------------------------
  // defineDocs and defineConfig.

  /** Patterns `defineDocs` of the application passes on: the given ones,
      or the Markdown pair, extended. */
  function AppDocsFiles(files: Option<seq<string>>): (r: seq<string>)
    ensures files.Some? ==> r == ExtendFilePatterns(files.value)
  {
    ExtendFilePatterns(if files.Some? then files.value else [MdxFiles, MdFiles])
  }

  /** Patterns `defineDocs` of the package passes on: the given ones
      extended, or the brace pattern with Org. */
  function PackageDocsFiles(files: Option<seq<string>>): (r: seq<string>)
    ensures files.None? ==> r == [BraceFilesWithOrg]
  {
    if files.Some? then ExtendFilePatterns(files.value) else [BraceFilesWithOrg]
  }

  /** With no patterns configured the application asks for four patterns,
      the Org one twice. */
  lemma AppDefaultHasOrgTwice()
    ensures AppDocsFiles(None) == [MdxFiles, OrgFiles, MdFiles, OrgFiles]
  {
    calc {
      AppDocsFiles(None);
      ExtendFilePatterns([MdxFiles, MdFiles]);
      { assert [MdxFiles, MdFiles][1..] == [MdFiles]; }
      ExtendPattern(MdxFiles) + ExtendFilePatterns([MdFiles]);
      { assert [MdFiles][1..] == []; }
      ExtendPattern(MdxFiles) + ExtendPattern(MdFiles);
      { MdxDefault(); MdDefault(); }
      [MdxFiles, OrgFiles] + [MdFiles, OrgFiles];
    }
  }

  lemma MdxDefault()
    ensures ExtendPattern(MdxFiles) == [MdxFiles, OrgFiles]
  {
    var p := MdxFiles;
    assert OccursAt(p, 5, "md");
    AbsentFirstChar(p, BraceGroup);
    assert EndsWith(p, ".mdx") && p[..|p| - 4] == AnyFile;
    assert AnyFile + ".org" == OrgFiles;
  }

  lemma MdDefault()
    ensures ExtendPattern(MdFiles) == [MdFiles, OrgFiles]
  {
    var p := MdFiles;
    assert OccursAt(p, 5, "md");
    AbsentFirstChar(p, BraceGroup);
    NotEndingWith(p, ".mdx");
    assert EndsWith(p, ".md") && p[..|p| - 3] == AnyFile;
    assert AnyFile + ".org" == OrgFiles;
  }

  /** Configuring the brace pattern explicitly gives the same list as
      configuring nothing in the package. */
  lemma BracePatternMatchesDefault()
    ensures PackageDocsFiles(Some([BraceFiles])) == PackageDocsFiles(None)
  {
    var p := BraceFiles;
    BraceAtFive();
    assert p[..5] + BraceGroupWithOrg + p[13..] == BraceFilesWithOrg;
    assert [BraceFiles][1..] == [];
  }

  lemma BraceAtFive()
    ensures IndexOf(BraceFiles, BraceGroup) == Some(5)
  {
    var p := BraceFiles;
    assert p[5..13] == BraceGroup;
    assert p[..5] == AnyFile + ".";
    FirstOccurrenceAt(p, BraceGroup, 5);
  }

  /** The docs options after `defineDocs`: the other options and the other
      docs fields are carried over, `files` is replaced. */
  datatype DocsField<D> = DocsField(files: Option<seq<string>>, rest: Option<D>)

  datatype DocsOptions<O, D> = DocsOptions(docs: Option<DocsField<D>>, rest: O)

  function DefineDocs<O, D>(options: DocsOptions<O, D>): (r: DocsOptions<O, D>)
    ensures r.rest == options.rest
    ensures r.docs.Some? && r.docs.value.files.Some?
    ensures options.docs.Some? ==> r.docs.value.rest == options.docs.value.rest
    ensures options.docs.Some? && options.docs.value.files.Some? ==>
      r.docs.value.files.value == ExtendFilePatterns(options.docs.value.files.value)
    ensures (options.docs.None? || options.docs.value.files.None?) ==> r.docs.value.files.value == [BraceFilesWithOrg]
  {
    var files := if options.docs.Some? then options.docs.value.files else None;
    var rest := if options.docs.Some? then options.docs.value.rest else None;
    DocsOptions(Some(DocsField(Some(PackageDocsFiles(files)), rest)), options.rest)
  }

  /** `defineDocs` of the application: the configured patterns or the
      Markdown pair, always extended. */
  function AppDefineDocs<O, D>(options: DocsOptions<O, D>): (r: DocsOptions<O, D>)
    ensures r.rest == options.rest
    ensures r.docs.Some? && r.docs.value.files.Some?
    ensures options.docs.Some? ==> r.docs.value.rest == options.docs.value.rest
    ensures options.docs.Some? && options.docs.value.files.Some? ==>
      r.docs.value.files.value == ExtendFilePatterns(options.docs.value.files.value)
    ensures (options.docs.None? || options.docs.value.files.None?) ==>
      r.docs.value.files.value == [MdxFiles, OrgFiles, MdFiles, OrgFiles]
  {
    var files := if options.docs.Some? then options.docs.value.files else None;
    var rest := if options.docs.Some? then options.docs.value.rest else None;
    AppDefaultHasOrgTwice();
    DocsOptions(Some(DocsField(Some(AppDocsFiles(files)), rest)), options.rest)
  }

  /** The two `defineDocs` differ only when no patterns are configured:
      with patterns, both pass on the same list. */
  lemma {:induction false} DefineDocsAgreeOnGivenFiles<O, D>(options: DocsOptions<O, D>)
    requires options.docs.Some? && options.docs.value.files.Some?
    ensures DefineDocs(options) == AppDefineDocs(options)
  {
  }

  /** A plugin slot: the Org support plugin or one of the user's. */
  datatype PluginSlot<P> = OrgSupport | UserPlugin(plugin: P)

  datatype Config<R, P> = Config(plugins: seq<PluginSlot<P>>, rest: Option<R>)

  /** `defineConfig`: the Org support plugin first, then the user's
      plugins in their order (none when `plugins` is missing). */
  function DefineConfig<R, P>(rest: Option<R>, plugins: Option<seq<P>>): (r: Config<R, P>)
    ensures |r.plugins| >= 1 && r.plugins[0] == OrgSupport
    ensures r.rest == rest
    ensures plugins.Some? ==> |r.plugins| == |plugins.value| + 1
    ensures plugins.Some? ==> forall i :: 0 <= i < |plugins.value| ==> r.plugins[i + 1] == UserPlugin(plugins.value[i])
    ensures plugins.None? ==> |r.plugins| == 1
  {
    var user := if plugins.Some? then plugins.value else [];
    Config([OrgSupport] + seq(|user|, i requires 0 <= i < |user| => UserPlugin(user[i])), rest)
  }

  /** The Org plugin occurs once, at the front, whatever the user lists. */
  lemma OrgSupportOnce<R, P>(rest: Option<R>, plugins: Option<seq<P>>)
    ensures forall i :: 0 <= i < |DefineConfig(rest, plugins).plugins| ==>
      (DefineConfig(rest, plugins).plugins[i] == OrgSupport <==> i == 0)
  {
  }
}
