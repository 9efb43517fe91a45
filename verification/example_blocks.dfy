/** Example blocks: each `#+begin_example` region is kept aside verbatim
    while the rest of the text is rendered, then put back as a plain fenced
    code block with its outer blank lines removed. */
module ExampleBlocks {
  import opened Wrappers
  import opened Text
  import opened Scanner
  import opened Markers
  import opened Blocks
  import R = Regions
  import C = Constants

  const ExampleName: string := "example"

  function ExampleAt(s: string, i: nat): Option<(nat, string)> {
    R.RegionAt(s, i, ExampleName)
  }

  /** The text with markers in place of example blocks, and the blocks. */
  datatype Stashed = Stashed(text: string, examples: seq<ExampleBlock>)

  /** Every example region becomes `EXAMPLEBLOCKMARKER<k>`, its body
      recorded under index k. */
  function ProcessExamples(s: string): (r: Stashed)
    ensures var hs := Hits(s, 0, ExampleAt);
      |r.examples| == |hs| &&
      (forall k :: 0 <= k < |hs| ==> r.examples[k] == ExampleBlock(hs[k].data)) &&
      r.text == Splice(s, 0, hs, MarkerTexts(C.ExampleBlockMarker, 0, |hs|))
  {
    var hs := Hits(s, 0, ExampleAt);
    Stashed(Splice(s, 0, hs, MarkerTexts(C.ExampleBlockMarker, 0, |hs|)),
            seq(|hs|, k requires 0 <= k < |hs| => ExampleBlock(hs[k].data)))
  }

  /** `.replace(/^\n+/, '')`: the leading line feeds removed. */
  function DropLeadingNewlines(s: string): (r: string)
    ensures |r| == 0 || r[0] != '\n'
    ensures |r| <= |s| && r == s[|s| - |r|..]
    ensures forall j :: 0 <= j < |s| - |r| ==> s[j] == '\n'
  {
    if |s| > 0 && s[0] == '\n' then DropLeadingNewlines(s[1..]) else s
  }

  /** `.replace(/\n+$/, '')` (no `m` flag, so `$` is the end of the text). */
  function DropTrailingNewlines(s: string): (r: string)
    ensures |r| == 0 || r[|r| - 1] != '\n'
    ensures |r| <= |s| && r == s[..|r|]
    ensures forall j :: |r| <= j < |s| ==> s[j] == '\n'
  {
    if |s| > 0 && s[|s| - 1] == '\n' then DropTrailingNewlines(s[..|s| - 1]) else s
  }

  /** The body with its outer line feeds removed. */
  function StripNewlines(s: string): (r: string)
    ensures |r| == 0 || (r[0] != '\n' && r[|r| - 1] != '\n')
  {
    var a := DropLeadingNewlines(s);
    var r := DropTrailingNewlines(a);
    assert |r| > 0 ==> r[0] == a[0];
    r
  }

  /** Stripping removes exactly the line feeds added around a body that
      neither starts nor ends with one. */
  lemma StripNewlinesInverse(a: nat, body: string, b: nat)
    requires |body| == 0 || (body[0] != '\n' && body[|body| - 1] != '\n')
    ensures StripNewlines(Repeat('\n', a) + body + Repeat('\n', b)) == body
  {
    var s := Repeat('\n', a) + body + Repeat('\n', b);
    var t := body + Repeat('\n', b);
    Assoc(Repeat('\n', a), body, Repeat('\n', b));
    if |body| == 0 {
      EmptyMiddle(Repeat('\n', a), body, Repeat('\n', b));
      RepeatAdd('\n', a, b);
      AllNewlines(a + b);
    } else {
      assert t[0] == body[0];
      LeadingNewlinesOf(a, t);
      TrailingNewlinesOf(body, b);
      assert DropLeadingNewlines(s) == t;
    }
    assert StripNewlines(s) == DropTrailingNewlines(DropLeadingNewlines(s));
  }

  lemma EmptyMiddle(x: string, y: string, z: string)
    requires |y| == 0
    ensures x + y + z == x + z
  {
  }

  lemma {:induction false} AllNewlines(n: nat)
    ensures DropLeadingNewlines(Repeat('\n', n)) == ""
  {
    if n > 0 {
      AllNewlines(n - 1);
      assert Repeat('\n', n)[1..] == Repeat('\n', n - 1);
    }
  }

  lemma {:induction false} RepeatAdd(c: char, a: nat, b: nat)
    ensures Repeat(c, a) + Repeat(c, b) == Repeat(c, a + b)
  {
    if a > 0 {
      RepeatAdd(c, a - 1, b);
      Assoc([c], Repeat(c, a - 1), Repeat(c, b));
    }
  }

  lemma {:induction false} LeadingNewlinesOf(a: nat, t: string)
    requires |t| == 0 || t[0] != '\n'
    ensures DropLeadingNewlines(Repeat('\n', a) + t) == t
  {
    if a > 0 {
      LeadingNewlinesOf(a - 1, t);
      var x := Repeat('\n', a - 1) + t;
      Assoc(['\n'], Repeat('\n', a - 1), t);
      assert (['\n'] + x)[1..] == x;
    } else {
      assert Repeat('\n', 0) + t == t;
    }
  }

  lemma {:induction false} TrailingNewlinesOf(t: string, b: nat)
    requires |t| == 0 || t[|t| - 1] != '\n'
    ensures DropTrailingNewlines(t + Repeat('\n', b)) == t
  {
    var s := t + Repeat('\n', b);
    if b > 0 {
      TrailingNewlinesOf(t, b - 1);
      assert Repeat('\n', b) == Repeat('\n', b - 1) + ['\n'];
      assert s[..|s| - 1] == t + Repeat('\n', b - 1);
    } else {
      assert s == t;
      if |s| > 0 {
        assert s[|s| - 1] == t[|t| - 1];
      }
    }
  }

  /** What an example block is put back as. */
  function ExampleFence(e: ExampleBlock): string {
    "```\n" + StripNewlines(e.content) + "\n```"
  }

  /** Marker k becomes the fence for block k, or nothing when there is no
      block k (the behaviour of the other restore passes). */
  function ExampleFill(examples: seq<ExampleBlock>): nat -> string {
    (k: nat) => if k < |examples| then ExampleFence(examples[k]) else ""
  }

  /** The example restore pass, with a missing index read as nothing. */
  function RestoreExamples(md: string, examples: seq<ExampleBlock>): string {
    RestoreMarkers(md, C.ExampleBlockMarker, ExampleFill(examples))
  }

  predicate IndicesBelow(ks: seq<nat>, n: nat) {
    forall j :: 0 <= j < |ks| ==> ks[j] < n
  }

  /** The example restore pass as the converter writes it: looking up a
      missing index yields `undefined`, and reading its `content` throws. */
  function RestoreExamplesAsWritten(md: string, examples: seq<ExampleBlock>): (r: Result<string, string>)
    ensures r.Success? <==> IndicesBelow(MarkerIndices(md, C.ExampleBlockMarker), |examples|)
    ensures r.Success? ==> r.value == RestoreExamples(md, examples)
  {
    if IndicesBelow(MarkerIndices(md, C.ExampleBlockMarker), |examples|) then
      Success(RestoreExamples(md, examples))
    else
      Failure("TypeError: Cannot read properties of undefined (reading 'content')")
  }

  /** A marker-like word in the text with no example block behind it makes
      the conversion as written throw, while the corrected pass drops it. */
  lemma StrayMarkerThrows()
    ensures RestoreExamplesAsWritten(Marker(C.ExampleBlockMarker, 7), []).Failure?
    ensures RestoreExamples(Marker(C.ExampleBlockMarker, 7), []) == ""
  {
    LoneMarkerIndex(C.ExampleBlockMarker, 7);
    assert MarkerIndices(Marker(C.ExampleBlockMarker, 7), C.ExampleBlockMarker)[0] == 7;
    SinglePass(C.ExampleBlockMarker, 7, ExampleFill([]));
    assert ExampleFill([])(7) == "";
  }

  /** Restoring what processing produced puts each example block back,
      fenced, in place of its region and leaves the rest of the text as it
      was, provided the text lacks the marker prefix and no region is
      directly followed by a digit. */
  lemma ExampleRoundTrip(s: string)
    requires Lacks(s, C.ExampleBlockMarker)
    requires FollowedByNonDigit(s, Hits(s, 0, ExampleAt))
    ensures var p := ProcessExamples(s); var hs := Hits(s, 0, ExampleAt);
      RestoreExamples(p.text, p.examples) ==
      Splice(s, 0, hs, seq(|hs|, j requires 0 <= j < |hs| => "```\n" + StripNewlines(hs[j].data) + "\n```"))
  {
    var p := ProcessExamples(s);
    var hs := Hits(s, 0, ExampleAt);
    var fill := ExampleFill(p.examples);
    ExampleBlockMarkerPrefix();
    RestoreSplice(s, 0, hs, C.ExampleBlockMarker, 0, fill);
    assert Fills(fill, 0, |hs|) == seq(|hs|, j requires 0 <= j < |hs| => "```\n" + StripNewlines(hs[j].data) + "\n```");
  }
}
