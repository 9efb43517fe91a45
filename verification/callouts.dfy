/** Callout blocks: every `#+begin_NAME … #+end_NAME` region whose name is a
    callout type becomes `CALLOUTMARKER<k>` while the text is rendered, its
    trimmed body kept under index k; regions of other names stay as they
    are. Afterwards each callout, in order, replaces the first occurrence
    of its marker with a `<Callout>` element around its rendered body. */
module Callouts {
  import opened Wrappers
  import opened Text
  import opened Scanner
  import opened Markers
  import opened Blocks
  import R = Regions
  import K = Keywords
  import C = Constants

  /** A matched region: its name, its body and the text it spans. */
  datatype CalloutMatch = CalloutMatch(name: string, body: string, original: string)

  /** The name `(\w+)` captures after an opening tag at `i`: the whole
      word run there, which must not be empty. */
  function NameAt(s: string, i: nat): (r: Option<string>)
    ensures r.Some? ==> 1 <= |r.value| && AllWordChars(r.value)
  {
    var p := i + |R.BeginPrefix|;
    if !OccursAt(s, i, R.BeginPrefix) then None
    else
      var w := WordRun(s[p..]);
      if w == 0 then None
      else
        assert s[p..p + w] == s[p..][..w];
        Some(s[p..p + w])
  }

  /** `/#\+begin_(\w+)\s*\n([\s\S]*?)#\+end_\1/g` tried at `i`. */
  function CalloutAt(s: string, i: nat): (r: Option<(nat, CalloutMatch)>)
    ensures r.Some? ==> i < r.value.0 && IsSlice(r.value.1.original, s, i, r.value.0)
    ensures r.Some? ==> 1 <= |r.value.1.name| && AllWordChars(r.value.1.name)
    ensures r.Some? ==> R.RegionAt(s, i, r.value.1.name) == Some((r.value.0, r.value.1.body))
  {
    match NameAt(s, i)
    case None => None
    case Some(name) =>
      match R.RegionAt(s, i, name)
      case None => None
      case Some((e, body)) => Some((e, CalloutMatch(name, body, s[i..e])))
  }

  /** `(\w+)` backing off to a shorter name cannot help: the name would be
      followed by a word character, where `\s*\n` cannot match. */
  lemma ShorterNameNoRegion(s: string, i: nat, name: string)
    requires OccursAt(s, i, R.BeginPrefix + name)
    requires var p := i + |R.BeginPrefix + name|; p < |s| && IsWordChar(s[p])
    ensures R.RegionAt(s, i, name).None?
  {
    R.NoLineBreakNoRegion(s, i, name);
  }

  /** With the whole word run after the opening tag as the name, the
      callout pattern matches exactly where the region pattern for that
      name does, with the same end and body. */
  lemma CalloutAtWholeWord(s: string, i: nat, name: string)
    requires 1 <= |name| && AllWordChars(name) && OccursAt(s, i, R.BeginPrefix + name)
    requires var p := i + |R.BeginPrefix + name|; p < |s| ==> !IsWordChar(s[p])
    ensures CalloutAt(s, i).Some? <==> R.RegionAt(s, i, name).Some?
    ensures CalloutAt(s, i).Some? ==>
      (CalloutAt(s, i).value.1.name == name &&
       (CalloutAt(s, i).value.0, CalloutAt(s, i).value.1.body) == R.RegionAt(s, i, name).value)
  {
    WholeWordName(s, i, name);
  }

  lemma WholeWordName(s: string, i: nat, name: string)
    requires 1 <= |name| && AllWordChars(name) && OccursAt(s, i, R.BeginPrefix + name)
    requires var p := i + |R.BeginPrefix + name|; p < |s| ==> !IsWordChar(s[p])
    ensures NameAt(s, i) == Some(name)
  {
    var p := i + |R.BeginPrefix|;
    var t := R.BeginPrefix + name;
    assert s[i..i + |t|] == t;
    assert s[i..p] == s[i..i + |t|][..|R.BeginPrefix|] == R.BeginPrefix;
    assert s[p..p + |name|] == s[i..i + |t|][|R.BeginPrefix|..] == name;
    assert s[p..] == name + s[p + |name|..];
    WordRunOf(name, s[p + |name|..]);
  }

  /** A region is a callout when its name is one of the callout types. */
  predicate Typed(m: CalloutMatch) {
    K.CalloutTypeOf(m.name).Some?
  }

  /** The callouts recorded for the hits, numbered from `k` in order. */
  function CalloutEntries(hs: seq<Hit<CalloutMatch>>, k: nat): (r: seq<CalloutBlock>)
    ensures |r| == Counted(hs, Typed)
  {
    if |hs| == 0 then []
    else if Typed(hs[0].data) then
      [CalloutBlock(K.CalloutTypeOf(hs[0].data.name).value, Trim(hs[0].data.body), k)] + CalloutEntries(hs[1..], k + 1)
    else CalloutEntries(hs[1..], k)
  }

  /** What each hit is replaced by: its marker for a callout, its own text
      otherwise. */
  function CalloutReps(hs: seq<Hit<CalloutMatch>>, k: nat): (r: seq<string>)
    ensures |r| == |hs|
  {
    var ns := Numbers(hs, Typed, k);
    seq(|hs|, j requires 0 <= j < |hs| =>
      if Typed(hs[j].data) then Marker(C.CalloutMarker, ns[j]) else hs[j].data.original)
  }

  /** The text with callouts replaced by markers, and the callouts. */
  datatype Extracted = Extracted(text: string, callouts: seq<CalloutBlock>)

  /** The callout extraction pass, counting callouts from 0. */
  function ProcessCallouts(s: string): (r: Extracted)
    ensures |r.callouts| == Counted(Hits(s, 0, CalloutAt), Typed)
  {
    var hs := Hits(s, 0, CalloutAt);
    Extracted(Splice(s, 0, hs, CalloutReps(hs, 0)), CalloutEntries(hs, 0))
  }

  /** The m-th recorded callout carries index k + m. */
  lemma {:induction false} CalloutEntriesIndexed(hs: seq<Hit<CalloutMatch>>, k: nat, m: nat)
    requires m < |CalloutEntries(hs, k)|
    ensures CalloutEntries(hs, k)[m].index == k + m
    decreases |hs|
  {
    if Typed(hs[0].data) {
      if m > 0 {
        CalloutEntriesIndexed(hs[1..], k + 1, m - 1);
      }
    } else {
      CalloutEntriesIndexed(hs[1..], k, m);
    }
  }

  /** A callout hit is replaced by the marker whose index is the number of
      callouts before it, and the entry stored under that index holds the
      callout's type and its trimmed body. */
  lemma CalloutHitEntry(hs: seq<Hit<CalloutMatch>>, k: nat, j: nat)
    requires j < |hs| && Typed(hs[j].data)
    ensures var n := Counted(hs[..j], Typed);
      CalloutReps(hs, k)[j] == Marker(C.CalloutMarker, k + n) &&
      n < |CalloutEntries(hs, k)| &&
      CalloutEntries(hs, k)[n] == CalloutBlock(K.CalloutTypeOf(hs[j].data.name).value, Trim(hs[j].data.body), k + n)
  {
    NumbersCount(hs, Typed, k, j);
    EntryOfHit(hs, k, j);
  }

  lemma {:induction false} EntryOfHit(hs: seq<Hit<CalloutMatch>>, k: nat, j: nat)
    requires j < |hs| && Typed(hs[j].data)
    ensures var n := Counted(hs[..j], Typed);
      n < |CalloutEntries(hs, k)| &&
      CalloutEntries(hs, k)[n] == CalloutBlock(K.CalloutTypeOf(hs[j].data.name).value, Trim(hs[j].data.body), k + n)
    decreases j
  {
    if j > 0 {
      CountedStep(hs, j);
      var n1 := Counted(hs[1..][..j - 1], Typed);
      assert hs[1..][j - 1] == hs[j];
      if Typed(hs[0].data) {
        EntryOfHit(hs[1..], k + 1, j - 1);
        EntriesTyped(hs, k);
        assert CalloutEntries(hs, k)[1 + n1] == CalloutEntries(hs[1..], k + 1)[n1];
      } else {
        EntryOfHit(hs[1..], k, j - 1);
      }
    } else {
      assert hs[..0] == [];
    }
  }

  lemma CountedStep(hs: seq<Hit<CalloutMatch>>, j: nat)
    requires 0 < j <= |hs|
    ensures Counted(hs[..j], Typed) == (if Typed(hs[0].data) then 1 else 0) + Counted(hs[1..][..j - 1], Typed)
  {
    assert hs[..j][1..] == hs[1..][..j - 1];
  }

  lemma EntriesTyped(hs: seq<Hit<CalloutMatch>>, k: nat)
    requires 0 < |hs| && Typed(hs[0].data)
    ensures CalloutEntries(hs, k)[1..] == CalloutEntries(hs[1..], k + 1)
  {
  }

  /** Every hit spans its own recorded text. */
  lemma HitsOwnText(s: string)
    ensures var hs := Hits(s, 0, CalloutAt);
      forall j :: 0 <= j < |hs| ==> hs[j].start <= hs[j].end <= |s| && hs[j].data.original == s[hs[j].start..hs[j].end]
  {
    var hs := Hits(s, 0, CalloutAt);
    forall j | 0 <= j < |hs|
      ensures hs[j].start <= hs[j].end <= |s| && hs[j].data.original == s[hs[j].start..hs[j].end]
    {
      HitIsMatch(s, 0, CalloutAt, j);
    }
  }

  /** A text none of whose regions names a callout type comes out as it
      went in, with no callouts recorded. */
  lemma UntypedUnchanged(s: string)
    requires forall j :: 0 <= j < |Hits(s, 0, CalloutAt)| ==> !Typed(Hits(s, 0, CalloutAt)[j].data)
    ensures ProcessCallouts(s) == Extracted(s, [])
  {
    var hs := Hits(s, 0, CalloutAt);
    var reps := CalloutReps(hs, 0);
    var o := Originals(s, 0, hs);
    forall j | 0 <= j < |hs| ensures reps[j] == o[j] {
      OriginalAt(s, 0, hs, j);
      HitIsMatch(s, 0, CalloutAt, j);
      assert !Typed(hs[j].data);
      assert reps[j] == hs[j].data.original;
    }
    assert reps == o;
    SpliceOriginals(s, 0, hs);
    NoneTyped(hs, 0);
  }

  lemma {:induction false} NoneTyped(hs: seq<Hit<CalloutMatch>>, k: nat)
    requires forall j :: 0 <= j < |hs| ==> !Typed(hs[j].data)
    ensures CalloutEntries(hs, k) == []
    decreases |hs|
  {
    if |hs| > 0 {
      assert forall j :: 0 <= j < |hs[1..]| ==> hs[1..][j] == hs[j + 1];
      NoneTyped(hs[1..], k);
    }
  }

  // ---------------------------------------------------------------------
  // Restoring.

  /** The element a callout is put back as; `render` is the Org-to-Markdown
      pipeline applied to its body on its own. */
  function CalloutElement(c: CalloutBlock, render: string -> string): string {
    "<Callout type=\"" + c.calloutType + "\">\n" + Trim(render(c.content)) + "\n</Callout>"
  }

  /** For each callout in turn, its element replaces the first occurrence
      of its marker, inserted literally. */
  function RestoreCallouts(md: string, cs: seq<CalloutBlock>, render: string -> string): string
    decreases |cs|
  {
    if |cs| == 0 then md
    else RestoreCallouts(ReplaceFirst(md, Marker(C.CalloutMarker, cs[0].index), CalloutElement(cs[0], render)), cs[1..], render)
  }

  /** The replacement string of `String.prototype.replace` for a pattern
      without capture groups: `$$` is `$`, `$&` the matched text, `` $` ``
      the text before it, `$'` the text after it, any other `$` itself. */
  function Expand(rep: string, matched: string, before: string, after: string): string
    decreases |rep|
  {
    if |rep| == 0 then ""
    else if rep[0] == '$' && |rep| >= 2 && rep[1] in "$&`'" then
      (if rep[1] == '$' then "$" else if rep[1] == '&' then matched else if rep[1] == '`' then before else after) +
      Expand(rep[2..], matched, before, after)
    else [rep[0]] + Expand(rep[1..], matched, before, after)
  }

  /** `s.replace(p, rep)` with a string pattern and replacement string. */
  function ReplaceFirstExpanding(s: string, p: string, rep: string): string {
    match IndexOf(s, p)
    case None => s
    case Some(i) => s[..i] + Expand(rep, p, s[..i], s[i + |p|..]) + s[i + |p|..]
  }

  /** The callout restore as written: the element is passed as a
      replacement string, so `$` patterns in the rendered body expand. */
  function RestoreCalloutsAsWritten(md: string, cs: seq<CalloutBlock>, render: string -> string): string
    decreases |cs|
  {
    if |cs| == 0 then md
    else RestoreCalloutsAsWritten(ReplaceFirstExpanding(md, Marker(C.CalloutMarker, cs[0].index), CalloutElement(cs[0], render)), cs[1..], render)
  }

  /** A replacement without `$` is inserted as it is. */
  lemma {:induction false} ExpandLiteral(rep: string, matched: string, before: string, after: string)
    requires '$' !in rep
    ensures Expand(rep, matched, before, after) == rep
    decreases |rep|
  {
    if |rep| > 0 {
      assert rep[0] != '$';
      ExpandLiteral(rep[1..], matched, before, after);
      assert rep == [rep[0]] + rep[1..];
    }
  }

  /** Text without `$` in front of a replacement passes through expansion. */
  lemma {:induction false} ExpandAppend(x: string, y: string, matched: string, before: string, after: string)
    requires '$' !in x
    ensures Expand(x + y, matched, before, after) == x + Expand(y, matched, before, after)
    decreases |x|
  {
    if |x| > 0 {
      assert (x + y)[0] == x[0] && (x + y)[1..] == x[1..] + y;
      ExpandAppend(x[1..], y, matched, before, after);
      assert x == [x[0]] + x[1..];
    } else {
      assert x + y == y;
    }
  }

  /** When no element contains `$`, the restore as written and the
      literal restore agree. */
  lemma {:induction false} AsWrittenAgreesWithoutDollar(md: string, cs: seq<CalloutBlock>, render: string -> string)
    requires forall m :: 0 <= m < |cs| ==> '$' !in CalloutElement(cs[m], render)
    ensures RestoreCalloutsAsWritten(md, cs, render) == RestoreCallouts(md, cs, render)
    decreases |cs|
  {
    if |cs| > 0 {
      var p := Marker(C.CalloutMarker, cs[0].index);
      var e := CalloutElement(cs[0], render);
      if IndexOf(md, p).Some? {
        var i := IndexOf(md, p).value;
        ExpandLiteral(e, p, md[..i], md[i + |p|..]);
      }
      assert ReplaceFirstExpanding(md, p, e) == ReplaceFirst(md, p, e);
      assert forall m :: 0 <= m < |cs[1..]| ==> cs[1..][m] == cs[m + 1];
      AsWrittenAgreesWithoutDollar(ReplaceFirst(md, p, e), cs[1..], render);
    }
  }

  /** A rendered callout body holding `$$` loses a dollar sign in the
      restore as written, and keeps it in the literal restore. */
  lemma DollarsCollapse(c: CalloutBlock, render: string -> string, x: string, y: string)
    requires Trim(render(c.content)) == x + "$$" + y
    requires '$' !in c.calloutType && '$' !in x && '$' !in y
    ensures var m := Marker(C.CalloutMarker, c.index);
      var head := "<Callout type=\"" + c.calloutType + "\">\n";
      RestoreCalloutsAsWritten(m, [c], render) == head + x + "$" + y + "\n</Callout>" &&
      RestoreCallouts(m, [c], render) == head + x + "$$" + y + "\n</Callout>"
  {
    var m := Marker(C.CalloutMarker, c.index);
    var head := "<Callout type=\"" + c.calloutType + "\">\n";
    var tail := "\n</Callout>";
    var e := CalloutElement(c, render);
    LoneOccurrence(m);
    assert m[..0] == "" && m[|m|..] == "";
    calc {
      RestoreCalloutsAsWritten(m, [c], render);
      RestoreCalloutsAsWritten(ReplaceFirstExpanding(m, m, e), [c][1..], render);
      { assert [c][1..] == []; }
      ReplaceFirstExpanding(m, m, e);
      "" + Expand(e, m, "", "") + "";
      { DollarsExpand(c, render, x, y, m); }
      head + x + "$" + y + tail;
    }
    calc {
      RestoreCallouts(m, [c], render);
      RestoreCallouts(ReplaceFirst(m, m, e), [c][1..], render);
      { assert [c][1..] == []; }
      ReplaceFirst(m, m, e);
      "" + e + "";
      head + x + "$$" + y + tail;
    }
  }

  /** Expanding the element turns the body's `$$` into `$` and keeps the rest. */
  lemma DollarsExpand(c: CalloutBlock, render: string -> string, x: string, y: string, m: string)
    requires Trim(render(c.content)) == x + "$$" + y
    requires '$' !in c.calloutType && '$' !in x && '$' !in y
    ensures Expand(CalloutElement(c, render), m, "", "") ==
      "<Callout type=\"" + c.calloutType + "\">\n" + x + "$" + y + "\n</Callout>"
  {
    var head := "<Callout type=\"" + c.calloutType + "\">\n";
    var tail := "\n</Callout>";
    var e := CalloutElement(c, render);
    NoDollarInHead(c.calloutType);
    NoDollarConcat(head, x);
    NoDollarConcat(y, tail);
    calc {
      Expand(e, m, "", "");
      { assert e == (head + x) + ("$$" + (y + tail)); }
      Expand((head + x) + ("$$" + (y + tail)), m, "", "");
      { ExpandAppend(head + x, "$$" + (y + tail), m, "", ""); }
      (head + x) + Expand("$$" + (y + tail), m, "", "");
      { DoubleDollar(y + tail, m); }
      (head + x) + ("$" + Expand(y + tail, m, "", ""));
      { ExpandLiteral(y + tail, m, "", ""); }
      (head + x) + ("$" + (y + tail));
      head + x + "$" + y + tail;
    }
  }

  lemma DoubleDollar(r: string, m: string)
    ensures Expand("$$" + r, m, "", "") == "$" + Expand(r, m, "", "")
  {
    var d := "$$" + r;
    assert d[0] == '$' && d[1] == '$' && d[2..] == r;
  }

  lemma NoDollarConcat(a: string, b: string)
    requires '$' !in a && '$' !in b
    ensures '$' !in a + b
  {
    forall j | 0 <= j < |a + b| ensures (a + b)[j] != '$' {
      if j < |a| { assert (a + b)[j] == a[j]; } else { assert (a + b)[j] == b[j - |a|]; }
    }
  }

  lemma NoDollarInHead(t: string)
    requires '$' !in t
    ensures '$' !in "<Callout type=\"" + t + "\">\n" && '$' !in "\n</Callout>"
  {
    NoDollarConcat("<Callout type=\"", t);
    NoDollarConcat("<Callout type=\"" + t, "\">\n");
  }

  lemma LoneOccurrence(m: string)
    ensures IndexOf(m, m) == Some(0)
  {
    assert OccursAt(m, 0, m);
  }

  /** `g0 + x0 + g1 + x1 + … + gn`: the rendered text with the pieces `xs`
      between the gaps. */
  function Weave(gaps: seq<string>, xs: seq<string>): string
    requires |gaps| == |xs| + 1
    decreases |xs|
  {
    if |xs| == 0 then gaps[0] else gaps[0] + xs[0] + Weave(gaps[1..], xs[1..])
  }

  lemma {:induction false} WeaveSplit(gaps: seq<string>, xs: seq<string>, j: nat)
    requires |gaps| == |xs| + 1 && j < |xs|
    ensures Weave(gaps, xs) == Weave(gaps[..j + 1], xs[..j]) + xs[j] + Weave(gaps[j + 1..], xs[j + 1..])
    decreases j
  {
    if j == 0 {
      assert Weave(gaps[..1], xs[..0]) == gaps[0];
    } else {
      WeaveSplit(gaps[1..], xs[1..], j - 1);
      assert gaps[1..][..j] == gaps[..j + 1][1..] && xs[1..][..j - 1] == xs[..j][1..];
      assert gaps[1..][j..] == gaps[j + 1..] && xs[1..][j..] == xs[j + 1..] && xs[1..][j - 1] == xs[j];
      var h := Weave(gaps[1..][..j], xs[1..][..j - 1]);
      assert Weave(gaps[..j + 1], xs[..j]) == gaps[0] + xs[0] + h;
    }
  }

  /** The marker of each callout. */
  function MarkersOf(cs: seq<CalloutBlock>): (r: seq<string>)
    ensures |r| == |cs|
  {
    seq(|cs|, m requires 0 <= m < |cs| => Marker(C.CalloutMarker, cs[m].index))
  }

  /** The element of each callout. */
  function ElementsOf(cs: seq<CalloutBlock>, render: string -> string): (r: seq<string>)
    ensures |r| == |cs|
  {
    seq(|cs|, m requires 0 <= m < |cs| => CalloutElement(cs[m], render))
  }

  /** With every callout's marker in the rendered text, in list order, the
      restore puts each element in its own marker's place, provided the
      outcome contains no marker prefix (which also rules out a marker for
      index 1 being found inside the one for index 10). */
  lemma CalloutsInPlace(gaps: seq<string>, cs: seq<CalloutBlock>, render: string -> string)
    requires |gaps| == |cs| + 1
    requires Lacks(Weave(gaps, ElementsOf(cs, render)), C.CalloutMarker)
    ensures RestoreCallouts(Weave(gaps, MarkersOf(cs)), cs, render) == Weave(gaps, ElementsOf(cs, render))
  {
    assert Mixed(ElementsOf(cs, render), MarkersOf(cs), 0) == MarkersOf(cs);
    RestoreFrom(gaps, cs, render, 0);
  }

  /** The first j pieces from `a`, the rest from `b`. */
  function Mixed(a: seq<string>, b: seq<string>, j: nat): (r: seq<string>)
    requires |a| == |b| && j <= |a|
    ensures |r| == |a|
  {
    a[..j] + b[j..]
  }

  lemma {:induction false} RestoreFrom(gaps: seq<string>, cs: seq<CalloutBlock>, render: string -> string, j: nat)
    requires |gaps| == |cs| + 1 && j <= |cs|
    requires Lacks(Weave(gaps, ElementsOf(cs, render)), C.CalloutMarker)
    ensures RestoreCallouts(Weave(gaps, Mixed(ElementsOf(cs, render), MarkersOf(cs), j)), cs[j..], render) ==
      Weave(gaps, ElementsOf(cs, render))
    decreases |cs| - j
  {
    var es := ElementsOf(cs, render);
    if j < |cs| {
      RestoreStep(gaps, cs, render, j);
      RestoreFrom(gaps, cs, render, j + 1);
      assert cs[j..][0] == cs[j] && cs[j..][1..] == cs[j + 1..];
    } else {
      assert Mixed(es, MarkersOf(cs), j) == es;
    }
  }

  /** One restore step replaces marker j by element j. */
  lemma RestoreStep(gaps: seq<string>, cs: seq<CalloutBlock>, render: string -> string, j: nat)
    requires |gaps| == |cs| + 1 && j < |cs|
    requires Lacks(Weave(gaps, ElementsOf(cs, render)), C.CalloutMarker)
    ensures ReplaceFirst(Weave(gaps, Mixed(ElementsOf(cs, render), MarkersOf(cs), j)),
                         Marker(C.CalloutMarker, cs[j].index), CalloutElement(cs[j], render)) ==
      Weave(gaps, Mixed(ElementsOf(cs, render), MarkersOf(cs), j + 1))
  {
    var es := ElementsOf(cs, render);
    var ms := MarkersOf(cs);
    MixedAt(gaps, es, ms, j);
    HeadLacks(gaps, es, j, C.CalloutMarker);
    CalloutMarkerPrefix();
    assert StartsWith(ms[j], C.CalloutMarker) by {
      assert ms[j] == C.CalloutMarker + NatToString(cs[j].index);
    }
    ReplaceAfterPlain(Weave(gaps[..j + 1], es[..j]), ms[j], Weave(gaps[j + 1..], ms[j + 1..]), es[j], C.CalloutMarker);
  }

  /** Before step j the text has element i for i < j, marker j, then
      markers; after it, element j in place of marker j. */
  lemma MixedAt(gaps: seq<string>, a: seq<string>, b: seq<string>, j: nat)
    requires |gaps| == |a| + 1 && |a| == |b| && j < |a|
    ensures Weave(gaps, Mixed(a, b, j)) == Weave(gaps[..j + 1], a[..j]) + b[j] + Weave(gaps[j + 1..], b[j + 1..])
    ensures Weave(gaps, Mixed(a, b, j + 1)) == Weave(gaps[..j + 1], a[..j]) + a[j] + Weave(gaps[j + 1..], b[j + 1..])
  {
    var before := Mixed(a, b, j);
    var after := Mixed(a, b, j + 1);
    assert before[..j] == a[..j] && before[j] == b[j] && before[j + 1..] == b[j + 1..];
    assert after[..j] == a[..j] && after[j] == a[j] && after[j + 1..] == b[j + 1..];
    WeaveSplit(gaps, before, j);
    WeaveSplit(gaps, after, j);
  }

  /** The part of the finished text before piece j lacks the prefix when
      the whole does. */
  lemma HeadLacks(gaps: seq<string>, xs: seq<string>, j: nat, prefix: string)
    requires |gaps| == |xs| + 1 && j < |xs| && Lacks(Weave(gaps, xs), prefix)
    ensures Lacks(Weave(gaps[..j + 1], xs[..j]), prefix)
  {
    var h := Weave(gaps[..j + 1], xs[..j]);
    var whole := Weave(gaps, xs);
    WeaveSplit(gaps, xs, j);
    Assoc(h, xs[j], Weave(gaps[j + 1..], xs[j + 1..]));
    PrefixOfConcat(h, xs[j] + Weave(gaps[j + 1..], xs[j + 1..]));
    LacksSlice(whole, 0, |h|, prefix);
  }

  lemma PrefixOfConcat(x: string, y: string)
    ensures (x + y)[..|x|] == x && (x + y)[0..|x|] == x
  {
  }

  /** In text without the prefix followed by a marker, the first
      occurrence of the marker is that one. */
  lemma ReplaceAfterPlain(g: string, m: string, rest: string, rep: string, prefix: string)
    requires MarkerPrefix(prefix) && StartsWith(m, prefix) && Lacks(g, prefix)
    ensures ReplaceFirst(g + m + rest, m, rep) == g + rep + rest
  {
    var s := g + m + rest;
    assert s[|g|..|g| + |m|] == m;
    assert OccursAt(s, |g|, m);
    var v := IndexOf(s, m);
    if v.value < |g| {
      NoEarlierMarker(g, m, rest, prefix, v.value);
    }
    assert v == Some(|g|);
    assert s[..|g|] == g && s[|g| + |m|..] == rest;
  }

  lemma NoEarlierMarker(g: string, m: string, rest: string, prefix: string, j: nat)
    requires MarkerPrefix(prefix) && StartsWith(m, prefix) && Lacks(g, prefix) && j < |g|
    ensures !OccursAt(g + m + rest, j, m)
  {
    var s := g + m + rest;
    var n := |prefix|;
    if j + n <= |g| {
      assert !OccursAt(g, j, prefix);
      assert s[j..j + n] == g[j..j + n];
    } else {
      var h := g[j..];
      assert s[j..] == h + (m + rest);
      assert StartsWith(m + rest, prefix) by {
        assert (m + rest)[..n] == m[..n];
      }
      Straddle(prefix, h, m + rest);
      assert prefix[|h|..] != prefix[..n - |h|];
      assert !StartsWith(s[j..], prefix);
    }
    if j + |m| <= |s| {
      assert s[j..j + |m|][..n] == s[j..j + n] == s[j..][..n];
    }
  }

  /** A prefix occurrence straddling the end of `h` while the text after
      `h` starts with the prefix forces a border of the prefix. */
  lemma Straddle(prefix: string, h: string, t: string)
    ensures |h| < |prefix| && StartsWith(h + t, prefix) && StartsWith(t, prefix) ==>
      prefix[|h|..] == prefix[..|prefix| - |h|]
  {
    if |h| < |prefix| && StartsWith(h + t, prefix) && StartsWith(t, prefix) {
      OverlapShift(prefix, h, t);
    }
  }
}
