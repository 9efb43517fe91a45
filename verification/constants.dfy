/** The shared constant tables: marker prefixes, skipped keywords, callout
    names, language remapping, file extensions, default front matter, and
    the shape of the checkbox pattern. */
module Constants {
  import opened Wrappers
  import opened Text

  // Marker prefixes; a marker is a prefix followed by a decimal index.
  const CodeBlockMarker: string := "CODEBLOCKMARKER"
  const ExampleBlockMarker: string := "EXAMPLEBLOCKMARKER"
  const HtmlMarker: string := "HTMLMARKER"
  const ExportHtmlMarker: string := "EXPORTHTMLMARKER"
  const ExportBlockMarker: string := "EXPORTBLOCKMARKER"
  const JsxMarker: string := "JSXMARKER"
  const LatexMarker: string := "LATEXMARKER"
  const CalloutMarker: string := "CALLOUTMARKER"

  const Markers: seq<string> := [
    CodeBlockMarker, ExampleBlockMarker, HtmlMarker, ExportHtmlMarker,
    ExportBlockMarker, JsxMarker, LatexMarker, CalloutMarker
  ]

  /** Keys the keyword extractors drop. */
  const SkipKeywords: set<string> := {"options", "latex_header", "date"}

  /** The Org block names that become Fumadocs callouts. */
  const CalloutNames: seq<string> := ["warning", "error", "info", "note", "tip", "caution"]

  const CalloutTypeMap: map<string, string> := map[
    "warning" := "warning", "error" := "error", "info" := "info",
    "note" := "note", "tip" := "tip", "caution" := "caution"
  ]

  /** Language names rewritten before highlighting. */
  const LanguageMappings: map<string, string> := map["math" := "latex"]

  const OrgExtension: string := ".org"
  const MdxExtension: string := ".mdx"
  const Md5Extension: string := ".md5sum"

  const DefaultTitle: string := "Generated from Org-mode"
  const DefaultDescription: string := "Generated from Org-mode"

  /** The eight prefixes are pairwise different words of capital letters, so
      none of them contains a digit and a marker's index is where its
      capitals stop. */
  lemma MarkerPrefixesDistinctCapitals()
    ensures |Markers| == 8
    ensures forall i, j :: 0 <= i < j < |Markers| ==> Markers[i] != Markers[j]
    ensures forall i, k :: 0 <= i < |Markers| && 0 <= k < |Markers[i]| ==>
      IsUpper(Markers[i][k]) && !IsDigit(Markers[i][k])
  {
  }

  /** The prefixes are not prefix-free in the substring sense: the HTML
      marker sits inside the export-HTML marker at offset 6. */
  lemma HtmlMarkerInsideExportHtmlMarker()
    ensures OccursAt(ExportHtmlMarker, 6, HtmlMarker)
    ensures !StartsWith(ExportHtmlMarker, HtmlMarker)
  {
    assert ExportHtmlMarker[6..6 + |HtmlMarker|] == HtmlMarker;
    assert ExportHtmlMarker[0] != HtmlMarker[0];
  }

  lemma SkipKeywordsExactly()
    ensures forall k :: k in SkipKeywords <==> k == "options" || k == "latex_header" || k == "date"
  {
  }

  /** The callout table is the identity on exactly the six callout names. */
  lemma CalloutTypeMapIdentity()
    ensures forall k :: k in CalloutTypeMap <==> k in CalloutNames
    ensures forall k :: k in CalloutTypeMap ==> CalloutTypeMap[k] == k
    ensures |CalloutNames| == 6
    ensures forall i, j :: 0 <= i < j < |CalloutNames| ==> CalloutNames[i] != CalloutNames[j]
  {
  }

  lemma LanguageMappingsOnlyMath()
    ensures forall k :: k in LanguageMappings <==> k == "math"
    ensures LanguageMappings["math"] == "latex"
  {
  }

  /** One `- [s] text` list item, as `^(\s*)- \[([ X-])\] (.+)$` (multiline)
      sees it at a line start. */
  datatype Checkbox = Checkbox(indent: string, state: char, text: string)

  function CheckboxSource(c: Checkbox): string {
    c.indent + "- [" + [c.state] + "] " + c.text
  }

  predicate IsCheckboxState(c: char) {
    c == ' ' || c == 'X' || c == '-'
  }

  function CheckboxAt(s: string): (r: Option<Checkbox>)
    ensures r.Some? ==> AllSpaces(r.value.indent) && IsCheckboxState(r.value.state)
    ensures r.Some? ==> |r.value.text| >= 1 && NoLineTerminator(r.value.text)
    ensures r.Some? ==> StartsWith(s, CheckboxSource(r.value))
    ensures r.Some? ==> var n := |CheckboxSource(r.value)|; n == |s| || IsLineTerminator(s[n])
  {
    var n := LeadingSpaces(s);
    var rest := s[n..];
    if |rest| >= 7 && rest[..3] == "- [" && IsCheckboxState(rest[3]) && rest[4..6] == "] " then
      var t := rest[6..];
      var e := LineEnd(t);
      if e >= 1 then
        var c := Checkbox(s[..n], rest[3], t[..e]);
        assert CheckboxSource(c) == s[..n + 6 + e];
        Some(c)
      else None
    else None
  }

  /** Exactly the three states space, `X` and `-` are recognised, and a
      recognised item is split back into its indent, state and text. */
  lemma CheckboxStates(ws: string, c: char, text: string)
    requires AllSpaces(ws)
    requires |text| >= 1 && NoLineTerminator(text)
    ensures CheckboxAt(CheckboxSource(Checkbox(ws, c, text))) ==
      (if IsCheckboxState(c) then Some(Checkbox(ws, c, text)) else None)
  {
    CheckboxSourceParts(ws, c, text);
    assert text[..|text|] == text;
  }

  lemma CheckboxSourceParts(ws: string, c: char, text: string)
    requires AllSpaces(ws)
    requires |text| >= 1 && NoLineTerminator(text)
    ensures var s := CheckboxSource(Checkbox(ws, c, text));
      var rest := s[|ws|..];
      LeadingSpaces(s) == |ws| && s[..|ws|] == ws && |rest| >= 7 && rest[..3] == "- [" && rest[3] == c &&
      rest[4..6] == "] " && rest[6..] == text && LineEnd(text) == |text|
  {
    var rest := "- [" + [c] + "] " + text;
    CheckboxSourceSplit(ws, c, text);
    SplitAtIndent(ws, rest);
    LeadingSpacesOf(ws, rest);
    CheckboxRest(c, text);
    assert text + "" == text;
    LineEndOf(text, "");
  }

  lemma CheckboxSourceSplit(ws: string, c: char, text: string)
    ensures CheckboxSource(Checkbox(ws, c, text)) == ws + ("- [" + [c] + "] " + text)
  {
  }

  lemma SplitAtIndent(ws: string, rest: string)
    ensures (ws + rest)[..|ws|] == ws && (ws + rest)[|ws|..] == rest
  {
  }

  lemma CheckboxRest(c: char, text: string)
    ensures var rest := "- [" + [c] + "] " + text;
      |rest| == 6 + |text| && rest[..3] == "- [" && rest[3] == c && rest[4..6] == "] " && rest[6..] == text
  {
    var rest := "- [" + [c] + "] " + text;
    assert rest == ("- [" + [c] + "] ") + text;
    assert rest[..6] == "- [" + [c] + "] ";
  }
}
