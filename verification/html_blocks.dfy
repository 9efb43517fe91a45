/** `#+HTML:` directives: each directive line is taken out of the Org text,
    its payload kept in the context, and a numbered marker left in its
    place; after rendering, each marker becomes the payload translated to
    JSX by an HTML-to-JSX converter that lies outside this model. */
module HtmlBlocks {
  import opened Wrappers
  import opened Text
  import opened Scanner
  import opened Markers
  import opened Blocks
  import K = Keywords
  import C = Constants

  const Directive: string := "#+html:"

  /** The directive, ignoring ASCII case, at a line start. */
  predicate DirectiveAt(s: string, i: nat) {
    i + |Directive| <= |s| && K.AtLineStart(s, i) && StartsWithCI(s[i..], Directive)
  }

  /** `\s*(.+)$` has no admissible capture start after `p`. */
  ghost predicate NoCapture(s: string, p: nat) {
    forall k: nat :: !K.CaptureStart(s, p, k)
  }

  /** No admissible capture start after `p` lies beyond `k`. */
  ghost predicate LastCapture(s: string, p: nat, k: nat) {
    forall j: nat :: K.CaptureStart(s, p, j) ==> j <= k
  }

  /** `/^#\+html:\s*(.+)$/gim` tried at `i`: where the match ends and the
      captured payload. */
  function HtmlAt(s: string, i: nat): (r: Option<(nat, string)>)
    ensures r.Some? ==> DirectiveAt(s, i)
    ensures r.Some? ==> i + |Directive| < r.value.0 <= |s| && (r.value.0 == |s| || IsLineTerminator(s[r.value.0]))
  {
    if DirectiveAt(s, i) then
      match K.RestOfLine(s, i + |Directive|)
      case None => None
      case Some((b, e)) =>
        K.RestOfLineGreedy(s, i + |Directive|);
        CaptureRunsToLineEnd(s, b, e);
        Some((e, s[b..e]))
    else None
  }

  /** A directive line matches exactly when its payload has an admissible
      start; the payload is a non-empty single line ending where the match
      ends, starting at the last admissible start. */
  lemma HtmlAtCapture(s: string, i: nat)
    requires DirectiveAt(s, i)
    ensures HtmlAt(s, i).None? <==> NoCapture(s, i + |Directive|)
    ensures HtmlAt(s, i).Some? ==> var e := HtmlAt(s, i).value.0; var cap := HtmlAt(s, i).value.1;
      1 <= |cap| && cap == s[e - |cap|..e] && NoLineTerminator(cap) &&
      K.CaptureStart(s, i + |Directive|, e - |cap|) && LastCapture(s, i + |Directive|, e - |cap|)
  {
    var p := i + |Directive|;
    K.RestOfLineGreedy(s, p);
    if K.RestOfLine(s, p).Some? {
      var (b, e) := K.RestOfLine(s, p).value;
      CaptureRunsToLineEnd(s, b, e);
      assert HtmlAt(s, i) == Some((e, s[b..e]));
      assert e - |s[b..e]| == b;
    }
  }

  lemma CaptureRunsToLineEnd(s: string, b: nat, e: nat)
    requires b <= |s| && e == b + LineEnd(s[b..])
    ensures e <= |s| && NoLineTerminator(s[b..e])
    ensures e == |s| || IsLineTerminator(s[e])
  {
    assert s[b..e] == s[b..][..e - b];
    if e < |s| {
      assert s[e] == s[b..][e - b];
    }
  }

  /** The entries recorded for the hits: trimmed payloads numbered from 0. */
  function HtmlEntries(hs: seq<Hit<string>>): (r: seq<HtmlBlock>)
    ensures |r| == |hs|
  {
    seq(|hs|, j requires 0 <= j < |hs| => HtmlBlock(Trim(hs[j].data), j))
  }

  /** `processHtmlBlocks`: every directive line becomes `HTMLMARKER<k>` and
      its trimmed payload is appended to the context's HTML list under
      index k, counting from 0 in this call. */
  function ProcessHtml(s: string, ctx: BlockContext): (r: Processed)
    ensures var hs := Hits(s, 0, HtmlAt);
      |r.ctx.htmlBlocks| == |ctx.htmlBlocks| + |hs| &&
      r.ctx.htmlBlocks[..|ctx.htmlBlocks|] == ctx.htmlBlocks &&
      (forall k :: 0 <= k < |hs| ==> r.ctx.htmlBlocks[|ctx.htmlBlocks| + k] == HtmlBlock(Trim(hs[k].data), k)) &&
      OnlyHtmlChanged(ctx, r.ctx) &&
      r.text == Splice(s, 0, hs, MarkerTexts(C.HtmlMarker, 0, |hs|))
  {
    var hs := Hits(s, 0, HtmlAt);
    var entries := HtmlEntries(hs);
    var r := Processed(Splice(s, 0, hs, MarkerTexts(C.HtmlMarker, 0, |hs|)),
                       ctx.(htmlBlocks := ctx.htmlBlocks + entries));
    assert r.ctx.htmlBlocks[..|ctx.htmlBlocks|] == ctx.htmlBlocks;
    r
  }

  /** What `HTMLMARKER<k>` becomes: the k-th entry translated to JSX, or
      nothing when there is no k-th entry. */
  function HtmlFill(ctx: BlockContext, htmlToJsx: string -> string): nat -> string {
    (k: nat) => if k < |ctx.htmlBlocks| then htmlToJsx(ctx.htmlBlocks[k].html) else ""
  }

  /** `restoreHtmlBlocks`. */
  function RestoreHtml(md: string, ctx: BlockContext, htmlToJsx: string -> string): string {
    RestoreMarkers(md, C.HtmlMarker, HtmlFill(ctx, htmlToJsx))
  }

  /** A hit ends at a line end, so no digit follows it. */
  lemma HtmlHitsFollowedByNonDigit(s: string)
    ensures FollowedByNonDigit(s, Hits(s, 0, HtmlAt))
  {
    var hs := Hits(s, 0, HtmlAt);
    forall k | 0 <= k < |hs| && hs[k].end < |s| ensures !IsDigit(s[hs[k].end]) {
      HitIsMatch(s, 0, HtmlAt, k);
      assert HtmlAt(s, hs[k].start).value.0 == hs[k].end;
    }
  }

  /** Restoring what processing produced from a fresh context puts every
      directive's payload, translated to JSX, where the directive was, and
      leaves the rest of the text as it was; the text must not already
      contain the marker prefix. */
  lemma HtmlRoundTrip(s: string, htmlToJsx: string -> string)
    requires Lacks(s, C.HtmlMarker)
    ensures var p := ProcessHtml(s, EmptyContext()); var hs := Hits(s, 0, HtmlAt);
      RestoreHtml(p.text, p.ctx, htmlToJsx) ==
      Splice(s, 0, hs, seq(|hs|, j requires 0 <= j < |hs| => htmlToJsx(Trim(hs[j].data))))
  {
    var p := ProcessHtml(s, EmptyContext());
    var hs := Hits(s, 0, HtmlAt);
    var fill := HtmlFill(p.ctx, htmlToJsx);
    HtmlMarkerPrefix();
    HtmlHitsFollowedByNonDigit(s);
    RestoreSplice(s, 0, hs, C.HtmlMarker, 0, fill);
    assert Fills(fill, 0, |hs|) == seq(|hs|, j requires 0 <= j < |hs| => htmlToJsx(Trim(hs[j].data)));
  }

  /** Numbering restarts at 0 in every call while entries are appended, so
      processing against a context that already holds an entry makes the
      first new marker restore that older entry. */
  lemma StaleIndexWithUsedContext(s: string, ctx: BlockContext, htmlToJsx: string -> string)
    requires |ctx.htmlBlocks| >= 1 && |Hits(s, 0, HtmlAt)| >= 1
    ensures var p := ProcessHtml(s, ctx);
      RestoreHtml(Marker(C.HtmlMarker, 0), p.ctx, htmlToJsx) == htmlToJsx(ctx.htmlBlocks[0].html)
  {
    var p := ProcessHtml(s, ctx);
    SinglePass(C.HtmlMarker, 0, HtmlFill(p.ctx, htmlToJsx));
    assert p.ctx.htmlBlocks[0] == p.ctx.htmlBlocks[..|ctx.htmlBlocks|][0];
  }
}
