/** `convertOrgToMdx`, in its current form and in the older form of the
    converter module: keywords are read from the Org text, the text goes
    through the marker stages around the rendering pipeline, and the
    result is the keyword map (the frontmatter before YAML) and the
    Markdown. Everything the stages call outside this model is a field of
    `Env`. */
module Serialize {
  import opened Wrappers
  import opened Text
  import opened Scanner
  import opened Markers
  import opened Blocks
  import OM = OrderedMap
  import K = Keywords
  import C = Constants
  import R = Regions
  import E = ExampleBlocks
  import CO = Callouts
  import I = Includes
  import U = Unescape

  /** The caller's `ConversionOptions`. */
  datatype Options = Options(
    basePath: Option<string>,
    defaultTitle: Option<string>,
    defaultDescription: Option<string>)

  /** The surroundings of a conversion: the file system for includes, the
      working directory, the block dispatcher and its restore pass (whose
      processor order is not part of this model), the unified rendering
      pipeline, the checkbox restore and the date parser. */
  datatype Env = Env(
    includes: I.IncludeEnv,
    cwd: string,
    processBlocks: (string, BlockContext) -> Processed,
    restoreBlocks: (string, BlockContext) -> string,
    render: string -> string,
    restoreCheckboxes: (string, string) -> string,
    parseDate: string -> Option<string>)

  /** The frontmatter keywords and the Markdown body. */
  datatype Conversion = Conversion(keywords: K.KeywordMap, markdown: string)

  /** What the stages up to rendering leave: the stored blocks, example
      blocks and callouts, and the rendered Markdown with checkboxes put
      back. */
  datatype Staged = Staged(blocks: BlockContext, examples: seq<ExampleBlock>, callouts: seq<CalloutBlock>, markdown: string)

  /** Blocks, examples and callouts are taken out, comments dropped, and
      the rest rendered and trimmed. */
  function Stage(org: string, env: Env): Staged {
    var p := env.processBlocks(org, EmptyContext());
    var ex := E.ProcessExamples(p.text);
    var co := CO.ProcessCallouts(R.StripComments(ex.text));
    Staged(p.ctx, ex.examples, co.callouts, env.restoreCheckboxes(co.text, Trim(env.render(co.text))))
  }

  /** The stages from block processing to the final unescape, the same in
      both converters: after `Stage`, callouts, blocks and examples are put
      back, each callout element inserted literally and an example marker
      without a block dropped. */
  function ConvertBody(org: string, env: Env): string {
    var st := Stage(org, env);
    var md := CO.RestoreCallouts(st.markdown, st.callouts, env.render);
    U.UnescapeAngles(E.RestoreExamples(env.restoreBlocks(md, st.blocks), st.examples))
  }

  /** No callout element holds a `$`, so inserting it as a replacement
      pattern changes nothing. */
  predicate CalloutsLiteral(org: string, env: Env) {
    var cs := Stage(org, env).callouts;
    forall m :: 0 <= m < |cs| ==> '$' !in CO.CalloutElement(cs[m], env.render)
  }

  /** The same stages as the converters write them: the callout element is
      a replacement pattern, and an example marker without a block throws. */
  function ConvertBodyAsWritten(org: string, env: Env): (r: Result<string, string>)
    ensures var st := Stage(org, env);
      var md := env.restoreBlocks(CO.RestoreCalloutsAsWritten(st.markdown, st.callouts, env.render), st.blocks);
      r.Success? <==> E.IndicesBelow(MarkerIndices(md, C.ExampleBlockMarker), |st.examples|)
    ensures r.Success? && CalloutsLiteral(org, env) ==> r.value == ConvertBody(org, env)
  {
    var st := Stage(org, env);
    var md := env.restoreBlocks(CO.RestoreCalloutsAsWritten(st.markdown, st.callouts, env.render), st.blocks);
    if CalloutsLiteral(org, env) then
      CO.AsWrittenAgreesWithoutDollar(st.markdown, st.callouts, env.render);
      BodyFrom(md, st.examples)
    else BodyFrom(md, st.examples)
  }

  /** The example restore as written, then the unescape. */
  function BodyFrom(md: string, examples: seq<ExampleBlock>): (r: Result<string, string>)
    ensures r.Success? <==> E.RestoreExamplesAsWritten(md, examples).Success?
    ensures r.Success? ==> r.value == U.UnescapeAngles(E.RestoreExamples(md, examples))
  {
    match E.RestoreExamplesAsWritten(md, examples)
    case Failure(e) => Failure(e)
    case Success(t) => Success(U.UnescapeAngles(t))
  }

  /** The directory includes are resolved against. */
  function BasePath(opts: Options, env: Env): string {
    if K.Truthy(opts.basePath) then opts.basePath.value else env.cwd
  }

  /** The current converter: keywords from the text as given, then include
      expansion from the base path with nothing visited, date
      normalisation and defaults. */
  function ConvertOrgToMdx(org: string, filename: string, opts: Options, env: Env): (r: Conversion)
    ensures K.Truthy(OM.Get(r.keywords, "title")) || OM.Get(r.keywords, "title") == Some(K.GenerateDefaultTitle(filename))
    ensures K.Truthy(OM.Get(r.keywords, "description"))
  {
    Conversion(Frontmatter(org, filename, opts, env), ConvertBody(Expanded(org, opts, env), env))
  }

  /** The root text with its includes expanded from the base path, nothing
      visited yet. */
  function Expanded(org: string, opts: Options, env: Env): string {
    I.ExpandIncludes(org, BasePath(opts, env), {}, env.includes)
  }

  /** The current converter's keywords: read from the text as given, then
      date normalisation and defaults. */
  function Frontmatter(org: string, filename: string, opts: Options, env: Env): K.KeywordMap {
    K.ApplyDefaults(K.NormalizeDate(K.ExtractOrgKeywords(org), env.parseDate), filename, opts.defaultTitle, opts.defaultDescription)
  }

  /** The current converter as written: the include expansion as written,
      bounded by `fuel` nested file reads (`None` is no result within that
      bound), then the body stages as written, which may throw. When it
      finishes without throwing, its keywords are the corrected
      converter's, and so is everything when no included Org file has
      `.org` before its ending and no callout element holds a `$`. */
  function ConvertOrgToMdxAsWritten(org: string, filename: string, opts: Options, env: Env, fuel: nat): (r: Option<Result<Conversion, string>>)
    ensures r.Some? && r.value.Success? ==> r.value.value.keywords == ConvertOrgToMdx(org, filename, opts, env).keywords
    ensures r.Some? && r.value.Success? && I.TextNamesEndOnly(org) && I.FilesNamesEndOnly(env.includes) && CalloutsLiteral(Expanded(org, opts, env), env) ==>
      r.value.value == ConvertOrgToMdx(org, filename, opts, env)
  {
    match I.ExpandIncludesAsWritten(org, BasePath(opts, env), {}, env.includes, fuel)
    case None => None
    case Some(expanded) =>
      if I.TextNamesEndOnly(org) && I.FilesNamesEndOnly(env.includes) then
        I.TextAsWrittenAgrees(org, BasePath(opts, env), {}, env.includes, fuel);
        Some(WithKeywords(Frontmatter(org, filename, opts, env), ConvertBodyAsWritten(expanded, env)))
      else
        Some(WithKeywords(Frontmatter(org, filename, opts, env), ConvertBodyAsWritten(expanded, env)))
  }

  /** A converted body paired with its keywords, or the error it threw. */
  function WithKeywords(kw: K.KeywordMap, body: Result<string, string>): (r: Result<Conversion, string>)
    ensures r.Success? <==> body.Success?
    ensures r.Success? ==> r.value == Conversion(kw, body.value)
  {
    match body
    case Failure(e) => Failure(e)
    case Success(md) => Success(Conversion(kw, md))
  }

  /** The older converter: the regular-expression keyword extractor, no
      include expansion and no date normalisation. */
  function ConvertLegacy(org: string, filename: string, opts: Options, env: Env): (r: Conversion)
    ensures K.Truthy(OM.Get(r.keywords, "description"))
  {
    Conversion(LegacyFrontmatter(org, filename, opts), ConvertBody(org, env))
  }

  function LegacyFrontmatter(org: string, filename: string, opts: Options): K.KeywordMap {
    K.ApplyDefaults(K.ExtractByRegex(org, true), filename, opts.defaultTitle, opts.defaultDescription)
  }

  /** The older converter as written: its body stages may throw. When it
      does not, its keywords are the corrected converter's, and so is
      everything when no callout element holds a `$`. */
  function ConvertLegacyAsWritten(org: string, filename: string, opts: Options, env: Env): (r: Result<Conversion, string>)
    ensures r.Success? ==> r.value.keywords == ConvertLegacy(org, filename, opts, env).keywords
    ensures r.Success? && CalloutsLiteral(org, env) ==> r.value == ConvertLegacy(org, filename, opts, env)
  {
    WithKeywords(LegacyFrontmatter(org, filename, opts), ConvertBodyAsWritten(org, env))
  }

  /** The keywords depend on the root text, the filename and the options
      alone: included files never contribute keywords, and the date parser
      is never consulted because no `date` keyword gets through. */
  lemma KeywordsFromRootOnly(org: string, filename: string, opts: Options, env: Env)
    ensures ConvertOrgToMdx(org, filename, opts, env).keywords ==
      K.ApplyDefaults(K.ExtractOrgKeywords(org), filename, opts.defaultTitle, opts.defaultDescription)
  {
    K.DateBranchUnreachable(org, env.parseDate);
  }

  /** The converted keywords have no `date`, `options` or `latex_header`,
      and always a non-empty description. */
  lemma SkippedKeysNeverInFrontmatter(org: string, filename: string, opts: Options, env: Env)
    ensures var kw := ConvertOrgToMdx(org, filename, opts, env).keywords;
      OM.Get(kw, "date").None? && OM.Get(kw, "options").None? && OM.Get(kw, "latex_header").None?
  {
    KeywordsFromRootOnly(org, filename, opts, env);
    K.SkippedKeysAbsent(org);
  }

  /** An opening tag of any region starts with this. */
  lemma BeginOfRegion(s: string, j: nat, name: string)
    ensures OccursAt(s, j, R.BeginPrefix + name) ==> OccursAt(s, j, R.BeginPrefix)
  {
    if OccursAt(s, j, R.BeginPrefix + name) {
      assert s[j..j + |R.BeginPrefix|] == s[j..j + |R.BeginPrefix + name|][..|R.BeginPrefix|];
    }
  }

  /** Text without any `#+begin_` goes through the example, comment and
      callout stages untouched. */
  lemma NoRegionStages(t: string)
    requires forall j :: 0 <= j <= |t| ==> !OccursAt(t, j, R.BeginPrefix)
    ensures E.ProcessExamples(t) == E.Stashed(t, [])
    ensures R.StripComments(t) == t
    ensures CO.ProcessCallouts(t) == CO.Extracted(t, [])
  {
    forall j | 0 <= j < |t| ensures !MatchesAt(t, j, E.ExampleAt) {
      BeginOfRegion(t, j, E.ExampleName);
    }
    NoMatchNoHits(t, 0, E.ExampleAt);
    forall j | 0 <= j <= |t| ensures !OccursAt(t, j, R.BeginPrefix + R.CommentName) {
      BeginOfRegion(t, j, R.CommentName);
    }
    R.CommentFreeUnchanged(t);
    NoMatchNoHits(t, 0, CO.CalloutAt);
    assert t[0..] == t;
  }

  /** Without regions in the text after block processing, and without
      example markers in what the renderer and block restore produce, the
      body is the rendered text with blocks restored and angles unescaped:
      the example, comment and callout stages change nothing. */
  lemma NoRegionsPassThrough(org: string, env: Env)
    requires var t := env.processBlocks(org, EmptyContext()).text;
      forall j :: 0 <= j <= |t| ==> !OccursAt(t, j, R.BeginPrefix)
    requires var p := env.processBlocks(org, EmptyContext());
      Lacks(env.restoreBlocks(env.restoreCheckboxes(p.text, Trim(env.render(p.text))), p.ctx), C.ExampleBlockMarker)
    ensures var p := env.processBlocks(org, EmptyContext());
      ConvertBody(org, env) == U.UnescapeAngles(env.restoreBlocks(env.restoreCheckboxes(p.text, Trim(env.render(p.text))), p.ctx))
  {
    var p := env.processBlocks(org, EmptyContext());
    NoRegionStages(p.text);
    var md := env.restoreBlocks(env.restoreCheckboxes(p.text, Trim(env.render(p.text))), p.ctx);
    ExampleBlockMarkerPrefix();
    NoMarkerUnchanged(C.ExampleBlockMarker, md, E.ExampleFill([]));
  }

  /** For a text without include directives (and with no carriage
      return), both converters produce the same Markdown. */
  lemma SameBodyWithoutIncludes(org: string, filename: string, opts: Options, env: Env)
    requires '\r' !in org
    requires forall k :: 0 <= k < |SplitLines(org)| ==> I.IncludeTarget(SplitLines(org)[k]).None?
    ensures ConvertOrgToMdx(org, filename, opts, env).markdown == ConvertLegacy(org, filename, opts, env).markdown
  {
    I.NoDirectiveUnchanged(org, BasePath(opts, env), {}, env.includes);
  }
}
