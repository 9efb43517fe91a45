/** Source blocks (`#+begin_src LANG` ... `#+end_src`): each block, nested
    source blocks included, is taken out whole and a numbered marker left
    in its place; after rendering, the marker becomes a fenced Markdown
    code block. The tags are matched ignoring ASCII case, and an inner
    `#+begin_src` opens one more level that its own `#+end_src` closes. */
module CodeBlocks {
  import opened Wrappers
  import opened Text
  import opened Scanner
  import opened Markers
  import opened Blocks
  import C = Constants

  const BeginTag: string := "#+begin_src"
  const EndTag: string := "#+end_src"

  /** What a tag occurrence at `j` does to the nesting depth. */
  function TagDelta(s: string, j: nat): int {
    if OccursAtCI(s, j, BeginTag) then 1 else if OccursAtCI(s, j, EndTag) then -1 else 0
  }

  /** Begin tags minus end tags starting in [p, q). */
  function Tally(s: string, p: nat, q: nat): int
    requires p <= q
    decreases q - p
  {
    if p == q then 0 else TagDelta(s, p) + Tally(s, p + 1, q)
  }

  /** The end tag that closes a block whose body is scanned from `p` with
      `depth` blocks open: tags are consumed whole, a begin tag opens a
      level, an end tag closes one, and the end tag met at depth 1 closes
      the block. */
  function CloseFrom(s: string, p: nat, depth: nat): (r: Option<nat>)
    requires p <= |s| && depth >= 1
    ensures r.Some? ==> p <= r.value && OccursAtCI(s, r.value, EndTag)
    decreases |s| - p
  {
    if p == |s| then None
    else if OccursAtCI(s, p, EndTag) then
      if depth == 1 then Some(p) else CloseFrom(s, p + |EndTag|, depth - 1)
    else if OccursAtCI(s, p, BeginTag) then CloseFrom(s, p + |BeginTag|, depth + 1)
    else CloseFrom(s, p + 1, depth)
  }

  /** The independent description of the closing tag: the first end tag at
      or after `p` before which the tags seen since `p` bring the depth
      back to 1. */
  ghost predicate ClosesAt(s: string, p: nat, depth: nat, q: nat) {
    p <= q && OccursAtCI(s, q, EndTag) && depth + Tally(s, p, q) == 1 &&
    forall j :: p <= j < q && OccursAtCI(s, j, EndTag) ==> depth + Tally(s, p, j) != 1
  }

  ghost predicate NeverCloses(s: string, p: nat, depth: nat) {
    forall q :: p <= q <= |s| && OccursAtCI(s, q, EndTag) ==> depth + Tally(s, p, q) != 1
  }

  /** Inside a tag no other tag starts: only the first character of either
      tag is `#`. */
  lemma NoTagInsideTag(s: string, p: nat, t: string, k: nat)
    requires t == BeginTag || t == EndTag
    requires OccursAtCI(s, p, t) && 1 <= k < |t|
    ensures TagDelta(s, p + k) == 0
  {
    assert t[k] in t[1..] by { assert t[1..][k - 1] == t[k]; }
    var c := ToLowerChar(s[p + k]);
    assert c != '#';
    assert BeginTag[0] == '#' && EndTag[0] == '#';
  }

  /** The two tags differ in their third character. */
  lemma TagsExclusive(s: string, p: nat)
    requires OccursAtCI(s, p, EndTag)
    ensures TagDelta(s, p) == -1
  {
    assert EndTag[2] == 'e' && BeginTag[2] == 'b';
    assert ToLowerChar(s[p + 2]) == EndTag[2];
  }

  lemma NoEndInsideTag(s: string, p: nat, t: string)
    requires t == BeginTag || t == EndTag
    requires OccursAtCI(s, p, t)
    ensures forall j :: p < j < p + |t| ==> !OccursAtCI(s, j, EndTag)
  {
    forall j | p < j < p + |t| ensures !OccursAtCI(s, j, EndTag) {
      NoTagInsideTag(s, p, t, j - p);
    }
  }

  lemma {:induction false} TallySplit(s: string, p: nat, m: nat, q: nat)
    requires p <= m <= q
    ensures Tally(s, p, q) == Tally(s, p, m) + Tally(s, m, q)
    decreases m - p
  {
    if p < m {
      TallySplit(s, p + 1, m, q);
    }
  }

  /** A whole tag counts once. */
  lemma {:induction false} TallyOfTag(s: string, p: nat, t: string, k: nat)
    requires t == BeginTag || t == EndTag
    requires OccursAtCI(s, p, t) && 1 <= k <= |t|
    ensures Tally(s, p + 1, p + k) == 0
    decreases k
  {
    if k > 1 {
      TallyOfTag(s, p, t, k - 1);
      TallySplit(s, p + 1, p + k - 1, p + k);
      NoTagInsideTag(s, p, t, k - 1);
      assert Tally(s, p + k - 1, p + k) == TagDelta(s, p + k - 1) + Tally(s, p + k, p + k);
    }
  }

  /** Moving the scan start over a tag (or a plain character) shifts the
      depth by that tag's count. */
  lemma StepOver(s: string, p: nat, w: nat, j: nat)
    requires 1 <= w && p + w <= j
    requires Tally(s, p + 1, p + w) == 0
    ensures Tally(s, p, j) == TagDelta(s, p) + Tally(s, p + w, j)
  {
    TallySplit(s, p + 1, p + w, j);
  }

  /** `r` is what the description says the scan from `p` finds. */
  ghost predicate Described(s: string, p: nat, depth: nat, r: Option<nat>) {
    (r.Some? ==> ClosesAt(s, p, depth, r.value)) && (r.None? ==> NeverCloses(s, p, depth))
  }

  /** The scan finds exactly the closing tag the description names, and
      finds none exactly when the description admits none. */
  lemma {:induction false} CloseFromSpec(s: string, p: nat, depth: nat)
    requires p <= |s| && depth >= 1
    ensures Described(s, p, depth, CloseFrom(s, p, depth))
    decreases |s| - p, 1
  {
    if p == |s| {
    } else if OccursAtCI(s, p, EndTag) {
      if depth > 1 {
        CloseAfterEnd(s, p, depth);
      } else {
        assert CloseFrom(s, p, depth) == Some(p) && Tally(s, p, p) == 0;
      }
    } else if OccursAtCI(s, p, BeginTag) {
      CloseAfterBegin(s, p, depth);
    } else {
      CloseAfterPlain(s, p, depth);
    }
  }

  lemma {:induction false} CloseAfterEnd(s: string, p: nat, depth: nat)
    requires p < |s| && depth > 1 && OccursAtCI(s, p, EndTag)
    ensures Described(s, p, depth, CloseFrom(s, p, depth))
    decreases |s| - p, 0
  {
    var r := CloseFrom(s, p + |EndTag|, depth - 1);
    CloseStep(s, p, depth);
    CloseFromSpec(s, p + |EndTag|, depth - 1);
    ShiftedOverEnd(s, p, depth, r);
  }

  lemma ShiftedOverEnd(s: string, p: nat, depth: nat, r: Option<nat>)
    requires depth > 1 && OccursAtCI(s, p, EndTag)
    requires Described(s, p + |EndTag|, depth - 1, r)
    ensures Described(s, p, depth, r)
  {
    TallyOfTag(s, p, EndTag, |EndTag|);
    NoEndInsideTag(s, p, EndTag);
    TagsExclusive(s, p);
    Shifted(s, p, |EndTag|, depth, depth - 1, r);
  }

  lemma {:induction false} CloseAfterBegin(s: string, p: nat, depth: nat)
    requires p < |s| && depth >= 1 && !OccursAtCI(s, p, EndTag) && OccursAtCI(s, p, BeginTag)
    ensures Described(s, p, depth, CloseFrom(s, p, depth))
    decreases |s| - p, 0
  {
    var r := CloseFrom(s, p + |BeginTag|, depth + 1);
    CloseStep(s, p, depth);
    CloseFromSpec(s, p + |BeginTag|, depth + 1);
    ShiftedOverBegin(s, p, depth, r);
  }

  lemma ShiftedOverBegin(s: string, p: nat, depth: nat, r: Option<nat>)
    requires depth >= 1 && !OccursAtCI(s, p, EndTag) && OccursAtCI(s, p, BeginTag)
    requires Described(s, p + |BeginTag|, depth + 1, r)
    ensures Described(s, p, depth, r)
  {
    TallyOfTag(s, p, BeginTag, |BeginTag|);
    NoEndInsideTag(s, p, BeginTag);
    Shifted(s, p, |BeginTag|, depth, depth + 1, r);
  }

  lemma {:induction false} CloseAfterPlain(s: string, p: nat, depth: nat)
    requires p < |s| && depth >= 1 && !OccursAtCI(s, p, EndTag) && !OccursAtCI(s, p, BeginTag)
    ensures Described(s, p, depth, CloseFrom(s, p, depth))
    decreases |s| - p, 0
  {
    var r := CloseFrom(s, p + 1, depth);
    CloseStep(s, p, depth);
    assert Tally(s, p + 1, p + 1) == 0;
    CloseFromSpec(s, p + 1, depth);
    Shifted(s, p, 1, depth, depth, r);
  }

  /** One step of the scan at a position that does not close the block. */
  lemma CloseStep(s: string, p: nat, depth: nat)
    requires p < |s| && depth >= 1 && !(OccursAtCI(s, p, EndTag) && depth == 1)
    ensures OccursAtCI(s, p, EndTag) ==> CloseFrom(s, p, depth) == CloseFrom(s, p + |EndTag|, depth - 1)
    ensures !OccursAtCI(s, p, EndTag) && OccursAtCI(s, p, BeginTag) ==>
      CloseFrom(s, p, depth) == CloseFrom(s, p + |BeginTag|, depth + 1)
    ensures !OccursAtCI(s, p, EndTag) && !OccursAtCI(s, p, BeginTag) ==>
      CloseFrom(s, p, depth) == CloseFrom(s, p + 1, depth)
  {
  }

  /** The description at `p` follows from the one at `p + w` when the
      first `w` characters hold one tag (or none) and nothing closes there. */
  lemma Shifted(s: string, p: nat, w: nat, depth: nat, depthAfter: nat, r: Option<nat>)
    requires 1 <= w && p + w <= |s| && depth >= 1 && depthAfter >= 1
    requires Tally(s, p + 1, p + w) == 0 && depthAfter == depth + TagDelta(s, p)
    requires OccursAtCI(s, p, EndTag) ==> depth != 1
    requires forall j :: p < j < p + w ==> !OccursAtCI(s, j, EndTag)
    requires Described(s, p + w, depthAfter, r)
    ensures Described(s, p, depth, r)
  {
    assert Tally(s, p, p) == 0;
    forall j | p + w <= j <= |s| ensures depth + Tally(s, p, j) == depthAfter + Tally(s, p + w, j) {
      StepOver(s, p, w, j);
    }
  }

  // ---------------------------------------------------------------------
  // One block.

  predicate IsBlank(c: char) {
    c == ' ' || c == '\t'
  }

  /** Number of leading spaces and tabs. */
  function BlankRun(s: string): (n: nat)
    ensures n <= |s| && forall k :: 0 <= k < n ==> IsBlank(s[k])
    ensures n < |s| ==> !IsBlank(s[n])
  {
    if |s| == 0 || !IsBlank(s[0]) then 0 else 1 + BlankRun(s[1..])
  }

  /** What may follow `#+begin_src` on its line: nothing, or blanks first. */
  predicate ValidHeader(h: string) {
    |h| == 0 || IsBlank(h[0])
  }

  /** The language: the word right after the header's leading blanks, or
      empty when there is none. */
  function HeaderLang(h: string): (l: string)
    ensures AllWordChars(l)
    ensures |l| <= |h| - BlankRun(h) && l == h[BlankRun(h)..BlankRun(h) + |l|]
  {
    var b := BlankRun(h);
    assert h[b..b + WordRun(h[b..])] == h[b..][..WordRun(h[b..])];
    h[b..b + WordRun(h[b..])]
  }

  /** Where the header line of a block starting at `i` ends. */
  function HeaderEnd(s: string, i: nat): (r: Option<nat>)
    requires i + |BeginTag| <= |s|
    ensures r.Some? ==> i + |BeginTag| <= r.value < |s|
  {
    CharIndexFrom(s, '\n', i + |BeginTag|)
  }

  /** A source block starting at `i`: the begin tag, a header line that is
      empty or starts with a blank, and a closing end tag; the match runs
      through the end tag and records the block as written with its
      language. */
  function CodeAt(s: string, i: nat): (r: Option<(nat, CodeBlock)>)
    ensures r.Some? ==> i < r.value.0 && IsSlice(r.value.1.original, s, i, r.value.0)
  {
    if !OccursAtCI(s, i, BeginTag) then None else CodeAfterTag(s, i)
  }

  /** The rest of a block whose begin tag is at `i`. */
  function CodeAfterTag(s: string, i: nat): (r: Option<(nat, CodeBlock)>)
    requires i + |BeginTag| <= |s|
    ensures r.Some? ==> i < r.value.0 && IsSlice(r.value.1.original, s, i, r.value.0)
  {
    match HeaderEnd(s, i)
    case None => None
    case Some(n) => CodeAfterHeader(s, i, n)
  }

  /** The rest of a block whose header line ends at `n`. */
  function CodeAfterHeader(s: string, i: nat, n: nat): (r: Option<(nat, CodeBlock)>)
    requires i + |BeginTag| <= n < |s|
    ensures r.Some? ==> i < r.value.0 && IsSlice(r.value.1.original, s, i, r.value.0)
  {
    var header := s[i + |BeginTag|..n];
    if !ValidHeader(header) then None
    else
      match CloseFrom(s, n + 1, 1)
      case None => None
      case Some(q) => Some((q + |EndTag|, CodeBlock(s[i..q + |EndTag|], HeaderLang(header))))
  }

  /** A block starts at `i` exactly when the begin tag is there, its line
      ends, the header is valid and the description of the closing tag
      admits one. */
  lemma CodeAtSpec(s: string, i: nat)
    requires OccursAtCI(s, i, BeginTag)
    ensures CodeAt(s, i).Some? <==>
      HeaderEnd(s, i).Some? && ValidHeader(s[i + |BeginTag|..HeaderEnd(s, i).value]) &&
      !NeverCloses(s, HeaderEnd(s, i).value + 1, 1)
  {
    assert CodeAt(s, i) == CodeAfterTag(s, i);
    if HeaderEnd(s, i).Some? {
      var n := HeaderEnd(s, i).value;
      assert CodeAfterTag(s, i) == CodeAfterHeader(s, i, n);
      CodeAfterHeaderIff(s, i, n);
      CloseFoundIff(s, n + 1);
    }
  }

  lemma CodeAfterHeaderIff(s: string, i: nat, n: nat)
    requires i + |BeginTag| <= n < |s|
    ensures CodeAfterHeader(s, i, n).Some? <==>
      ValidHeader(s[i + |BeginTag|..n]) && CloseFrom(s, n + 1, 1).Some?
  {
  }

  lemma CloseFoundIff(s: string, p: nat)
    requires p <= |s|
    ensures CloseFrom(s, p, 1).Some? <==> !NeverCloses(s, p, 1)
  {
    CloseFromSpec(s, p, 1);
    if CloseFrom(s, p, 1).Some? {
      ClosingAdmitted(s, p, CloseFrom(s, p, 1).value);
    }
  }

  lemma ClosingAdmitted(s: string, p: nat, q: nat)
    requires ClosesAt(s, p, 1, q)
    ensures !NeverCloses(s, p, 1)
  {
  }

  // ---------------------------------------------------------------------
  // Processing and restoring.

  /** `processCodeBlocks`: every block becomes `CODEBLOCKMARKER<k>`, where
      k is the position at which its entry is appended to the context. */
  function ProcessCode(s: string, ctx: BlockContext): (r: Processed)
    ensures var hs := Hits(s, 0, CodeAt);
      |r.ctx.codeBlocks| == |ctx.codeBlocks| + |hs| &&
      r.ctx.codeBlocks[..|ctx.codeBlocks|] == ctx.codeBlocks &&
      (forall k :: 0 <= k < |hs| ==> r.ctx.codeBlocks[|ctx.codeBlocks| + k] == hs[k].data) &&
      OnlyCodeChanged(ctx, r.ctx)
  {
    var hs := Hits(s, 0, CodeAt);
    var entries := seq(|hs|, j requires 0 <= j < |hs| => hs[j].data);
    var r := Processed(Splice(s, 0, hs, MarkerTexts(C.CodeBlockMarker, |ctx.codeBlocks|, |hs|)),
                       ctx.(codeBlocks := ctx.codeBlocks + entries));
    assert r.ctx.codeBlocks[..|ctx.codeBlocks|] == ctx.codeBlocks;
    r
  }

  /** The fence language: `org` is shown as plain text, `math` as LaTeX,
      anything else as written. */
  function MapLang(l: string): string {
    if l == "org" then "text" else if l in C.LanguageMappings then C.LanguageMappings[l] else l
  }

  /** The lines of a block between its first and its last line. */
  function Body(original: string): string {
    if '\n' !in original then ""
    else
      var f := IndexOfChar(original, '\n');
      var l := LastIndexOfChar(original, '\n');
      if f < l then original[f + 1..l] else ""
  }

  function Fence(b: CodeBlock): string {
    "```" + MapLang(b.lang) + "\n" + Body(b.original) + "\n```"
  }

  /** The fence of each block found. */
  function Fences(hs: seq<Hit<CodeBlock>>): seq<string> {
    seq(|hs|, j requires 0 <= j < |hs| => Fence(hs[j].data))
  }

  function CodeFill(ctx: BlockContext): nat -> string {
    (k: nat) => if k < |ctx.codeBlocks| then Fence(ctx.codeBlocks[k]) else ""
  }

  /** `restoreCodeBlocks`: each marker becomes the fence of its entry, or
      nothing when the entry is missing. */
  function RestoreCode(md: string, ctx: BlockContext): string {
    RestoreMarkers(md, C.CodeBlockMarker, CodeFill(ctx))
  }

  /** The fence holds exactly the lines between the header line and the
      end-tag line, whatever lines they are. */
  lemma BodyBetweenFirstAndLastLine(head: string, body: string, tail: string)
    requires '\n' !in head && '\n' !in tail
    ensures Body(head + "\n" + body + "\n" + tail) == body
  {
    var o := head + "\n" + body + "\n" + tail;
    var m := |head| + 1 + |body|;
    assert o[..|head|] == head && o[|head|] == '\n';
    assert o[m + 1..] == tail && o[m] == '\n';
    FirstOccurrence(o, '\n', |head|);
    LastOccurrence(o, '\n', m);
    assert o[|head| + 1..m] == body;
  }

  lemma FirstOccurrence(s: string, c: char, i: nat)
    requires i < |s| && s[i] == c && c !in s[..i]
    ensures c in s && IndexOfChar(s, c) == i
  {
  }

  lemma LastOccurrence(s: string, c: char, i: nat)
    requires i < |s| && s[i] == c && c !in s[i + 1..]
    ensures c in s && LastIndexOfChar(s, c) == i
  {
  }

  /** One marker, even inside another block's text, is replaced once: by
      its entry's fence when the entry exists, by nothing otherwise. */
  lemma RestoreOneMarker(ctx: BlockContext, k: nat)
    ensures RestoreCode(Marker(C.CodeBlockMarker, k), ctx) ==
      (if k < |ctx.codeBlocks| then Fence(ctx.codeBlocks[k]) else "")
  {
    SinglePass(C.CodeBlockMarker, k, CodeFill(ctx));
  }

  /** Restoring what processing produced puts each block's fence where the
      block was and keeps the rest of the text, provided the text has no
      marker prefix and no block is directly followed by a digit (which
      would extend its marker's number). */
  lemma CodeRoundTrip(s: string, ctx: BlockContext)
    requires Lacks(s, C.CodeBlockMarker)
    requires FollowedByNonDigit(s, Hits(s, 0, CodeAt))
    ensures var p := ProcessCode(s, ctx); var hs := Hits(s, 0, CodeAt);
      RestoreCode(p.text, p.ctx) == Splice(s, 0, hs, Fences(hs))
  {
    var p := ProcessCode(s, ctx);
    var hs := Hits(s, 0, CodeAt);
    var fill := CodeFill(p.ctx);
    CodeBlockMarkerPrefix();
    RestoreSplice(s, 0, hs, C.CodeBlockMarker, |ctx.codeBlocks|, fill);
    assert Fills(fill, |ctx.codeBlocks|, |hs|) == Fences(hs);
  }
}
