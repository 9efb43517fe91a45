/** The reverse direction, `convertMdxToOrg`: frontmatter entries become
    `#+KEY: value` lines, and the parsed MDX tree is walked into Org text.
    Parsing the MDX and the YAML happens outside this model, so the
    conversion starts from the frontmatter entries and the tree. */
module MdxToOrg {
  import opened Wrappers
  import opened Text
  import OM = OrderedMap
  import K = Keywords
  import C = Constants

  /** A JSX attribute: a named one with an optional string value, or an
      expression attribute, which the walk ignores. */
  datatype Attribute = JsxAttribute(name: string, value: Option<string>) | ExpressionAttribute

  /** The MDX node kinds the walk distinguishes; `Other` stands for every
      kind it does not handle. */
  datatype Node =
    | Root(children: seq<Node>)
    | Heading(depth: nat, children: seq<Node>)
    | Paragraph(children: seq<Node>)
    | Text(value: string)
    | List(ordered: bool, children: seq<Node>)
    | ListItem(children: seq<Node>)
    | Code(lang: Option<string>, value: string)
    | InlineCode(value: string)
    | Link(url: string, children: seq<Node>)
    | Strong(children: seq<Node>)
    | Emphasis(children: seq<Node>)
    | JsxFlow(name: string, attributes: seq<Attribute>, children: seq<Node>)
    | JsxText(name: string, attributes: seq<Attribute>, children: seq<Node>)
    | Blockquote(children: seq<Node>)
    | ThematicBreak
    | Table(rows: seq<Row>)
    | Other(kind: string, children: seq<Node>)

  datatype Row = Row(cells: seq<Cell>)

  datatype Cell = Cell(children: seq<Node>)

  // ---------------------------------------------------------------------
  // The tree walk.

  /** `astToOrg`: total, an unhandled kind gives the empty text. */
  function AstToOrg(n: Node): (r: string)
    ensures n.Other? ==> r == ""
    decreases n
  {
    match n
    case Root(cs) => Joined(cs)
    case Heading(d, cs) => Repeat('*', d) + " " + Joined(cs) + "\n\n"
    case Paragraph(cs) => Joined(cs) + "\n\n"
    case Text(v) => v
    case List(_, cs) => Joined(cs) + "\n"
    case ListItem(cs) => "- " + JoinedTrimmed(cs) + "\n"
    case Code(lang, v) =>
      if K.Truthy(lang) then "#+begin_src " + lang.value + "\n" + v + "\n#+end_src\n\n"
      else "#+begin_example\n" + v + "\n#+end_example\n\n"
    case InlineCode(v) => "=" + v + "="
    case Link(url, cs) => "[[" + url + "][" + Joined(cs) + "]]"
    case Strong(cs) => "*" + Joined(cs) + "*"
    case Emphasis(cs) => "/" + Joined(cs) + "/"
    case JsxFlow(name, attrs, cs) => "#+begin_export jsx\n" + JsxToString(name, attrs, cs) + "\n#+end_export\n\n"
    case JsxText(name, attrs, cs) => "#+begin_export jsx\n" + JsxToString(name, attrs, cs) + "\n#+end_export"
    case Blockquote(cs) => JoinedTrimmed(cs) + "\n\n"
    case ThematicBreak => "-----\n\n"
    case Table(rows) => TableToOrg(rows)
    case Other(_, _) => ""
  }

  /** `children.map(astToOrg).join('')`. */
  function Joined(cs: seq<Node>): string
    decreases cs
  {
    if |cs| == 0 then "" else AstToOrg(cs[0]) + Joined(cs[1..])
  }

  /** `children.map(c => astToOrg(c).trimEnd()).join('')`. */
  function JoinedTrimmed(cs: seq<Node>): string
    decreases cs
  {
    if |cs| == 0 then "" else TrimEnd(AstToOrg(cs[0])) + JoinedTrimmed(cs[1..])
  }

  /** `childToOrg`: the walk used inside JSX elements, which knows only
      phrasing nodes. */
  function ChildToOrg(n: Node): (r: string)
    decreases n
  {
    match n
    case Text(v) => v
    case Strong(cs) => "*" + ChildrenJoined(cs) + "*"
    case Emphasis(cs) => "/" + ChildrenJoined(cs) + "/"
    case InlineCode(v) => "=" + v + "="
    case Link(url, cs) => "[[" + url + "][" + ChildrenJoined(cs) + "]]"
    case JsxText(name, attrs, cs) => "#+begin_export jsx\n" + JsxToString(name, attrs, cs) + "\n#+end_export"
    case _ => ""
  }

  function ChildrenJoined(cs: seq<Node>): string
    decreases cs, 0
  {
    if |cs| == 0 then "" else ChildToOrg(cs[0]) + ChildrenJoined(cs[1..])
  }

  /** One attribute: ` name="value"`, or ` name` when the value is missing
      or empty; expression attributes print nothing. */
  function AttributeToString(a: Attribute): string {
    match a
    case JsxAttribute(name, v) => " " + name + (if K.Truthy(v) then "=\"" + v.value + "\"" else "")
    case ExpressionAttribute => ""
  }

  function AttributesToString(attrs: seq<Attribute>): string {
    if |attrs| == 0 then "" else AttributeToString(attrs[0]) + AttributesToString(attrs[1..])
  }

  /** `mdxJsxToString`: the element as an opening tag with its attributes,
      its children through `childToOrg`, and a closing tag. */
  function JsxToString(name: string, attrs: seq<Attribute>, cs: seq<Node>): (r: string)
    ensures StartsWith(r, "<" + name) && EndsWith(r, "</" + name + ">")
    decreases cs, 1
  {
    var r := "<" + name + AttributesToString(attrs) + ">" + ChildrenJoined(cs) + "</" + name + ">";
    assert r == ("<" + name) + (AttributesToString(attrs) + ">" + ChildrenJoined(cs) + "</" + name + ">");
    assert r == ("<" + name + AttributesToString(attrs) + ">" + ChildrenJoined(cs)) + ("</" + name + ">");
    r
  }

  // ---------------------------------------------------------------------
  // Tables.

  function CellTexts(cells: seq<Cell>): (r: seq<string>)
    ensures |r| == |cells|
    decreases cells
  {
    if |cells| == 0 then [] else [Joined(cells[0].children)] + CellTexts(cells[1..])
  }

  /** `'| ' + cells.join(' | ') + ' |\n'`. */
  function RowLine(texts: seq<string>): string {
    "| " + Join(texts, " | ") + " |\n"
  }

  /** One run of dashes per header cell, two longer than its text. */
  function Dashes(texts: seq<string>): (r: seq<string>)
    ensures |r| == |texts|
  {
    if |texts| == 0 then [] else [Repeat('-', |texts[0]| + 2)] + Dashes(texts[1..])
  }

  /** `'|' + parts.join('|') + '|\n'`. */
  function SeparatorLine(texts: seq<string>): string {
    "|" + Join(Dashes(texts), "|") + "|\n"
  }

  function RowLines(rows: seq<Row>): string
    decreases rows
  {
    if |rows| == 0 then "" else RowLine(CellTexts(rows[0].cells)) + RowLines(rows[1..])
  }

  /** The rows, one line each, with the separator after the first row, and
      a blank line after the table. */
  function TableToOrg(rows: seq<Row>): string
    decreases rows
  {
    if |rows| == 0 then "\n"
    else
      var header := CellTexts(rows[0].cells);
      RowLine(header) + SeparatorLine(header) + RowLines(rows[1..]) + "\n"
  }

  /** Two lines of the same length with `|` at the same places. */
  predicate PipesAlike(x: string, y: string) {
    |x| == |y| && forall j :: 0 <= j < |x| ==> (x[j] == '|' <==> y[j] == '|')
  }

  lemma PipesConcat(a: string, b: string, x: string, y: string)
    requires PipesAlike(a, x) && PipesAlike(b, y)
    ensures PipesAlike(a + b, x + y)
  {
    forall j | 0 <= j < |a + b| ensures ((a + b)[j] == '|' <==> (x + y)[j] == '|') {
      if j >= |a| {
        assert (a + b)[j] == b[j - |a|] && (x + y)[j] == y[j - |a|];
      }
    }
  }

  /** The separator lines up with the header row: same length, column
      bars at the same positions, as long as no header cell holds a `|`. */
  lemma SeparatorAligned(texts: seq<string>)
    requires |texts| >= 1
    requires forall i :: 0 <= i < |texts| ==> '|' !in texts[i]
    ensures PipesAlike(RowLine(texts), SeparatorLine(texts))
  {
    InnerAligned(texts);
    PipesConcat("|", " " + Join(texts, " | ") + " ", "|", Join(Dashes(texts), "|"));
    PipesConcat("|" + (" " + Join(texts, " | ") + " "), "|\n", "|" + Join(Dashes(texts), "|"), "|\n");
    assert RowLine(texts) == "|" + (" " + Join(texts, " | ") + " ") + "|\n";
  }

  lemma {:induction false} InnerAligned(texts: seq<string>)
    requires |texts| >= 1
    requires forall i :: 0 <= i < |texts| ==> '|' !in texts[i]
    ensures PipesAlike(" " + Join(texts, " | ") + " ", Join(Dashes(texts), "|"))
    decreases |texts|
  {
    var t := texts[0];
    var a := " " + t + " ";
    var x := Repeat('-', |t| + 2);
    assert PipesAlike(a, x) by {
      forall j | 0 <= j < |a| ensures a[j] != '|' && x[j] != '|' {
        if 1 <= j <= |t| {
          assert a[j] == t[j - 1];
        }
      }
    }
    if |texts| > 1 {
      var rest := texts[1..];
      InnerAligned(rest);
      PipesConcat(a, "|", x, "|");
      PipesConcat(a + "|", " " + Join(rest, " | ") + " ", x + "|", Join(Dashes(rest), "|"));
      assert " " + Join(texts, " | ") + " " == a + "|" + (" " + Join(rest, " | ") + " ");
      assert Dashes(texts)[1..] == Dashes(rest);
    } else {
      assert " " + Join(texts, " | ") + " " == a;
    }
  }

  // ---------------------------------------------------------------------
  // Properties of the walk.

  /** The number of leading `*`: the level an Org reader gives a heading line. */
  function LeadingStars(s: string): (r: nat)
    ensures r <= |s|
  {
    if |s| > 0 && s[0] == '*' then 1 + LeadingStars(s[1..]) else 0
  }

  lemma {:induction false} StarsThenSpace(d: nat, rest: string)
    ensures LeadingStars(Repeat('*', d) + " " + rest) == d
  {
    if d > 0 {
      StarsThenSpace(d - 1, rest);
      assert (Repeat('*', d) + " " + rest)[1..] == Repeat('*', d - 1) + " " + rest;
    } else {
      assert Repeat('*', 0) + " " + rest == " " + rest;
    }
  }

  /** A heading of depth d is read back as a heading of level d, whatever
      its text: d stars, then a space. */
  lemma HeadingLevel(d: nat, cs: seq<Node>)
    ensures var r := AstToOrg(Heading(d, cs));
      LeadingStars(r) == d && r[d] == ' '
  {
    StarsThenSpace(d, Joined(cs) + "\n\n");
    assert AstToOrg(Heading(d, cs)) == Repeat('*', d) + " " + (Joined(cs) + "\n\n");
    assert (Repeat('*', d) + " " + (Joined(cs) + "\n\n"))[d] == ' ';
  }

  /** Ordered and unordered lists come out alike, every item a `- ` line. */
  lemma ListKindIgnored(cs: seq<Node>, items: seq<Node>)
    ensures AstToOrg(List(true, cs)) == AstToOrg(List(false, cs))
    ensures StartsWith(AstToOrg(ListItem(items)), "- ")
  {
  }

  /** Phrasing content: what `childToOrg` knows. */
  predicate Phrasing(n: Node)
    decreases n
  {
    match n
    case Text(_) => true
    case InlineCode(_) => true
    case Strong(cs) => AllPhrasing(cs)
    case Emphasis(cs) => AllPhrasing(cs)
    case Link(_, cs) => AllPhrasing(cs)
    case JsxText(_, _, _) => true
    case _ => false
  }

  predicate AllPhrasing(cs: seq<Node>)
    decreases cs
  {
    |cs| == 0 || (Phrasing(cs[0]) && AllPhrasing(cs[1..]))
  }

  /** On phrasing content the two walks agree: `childToOrg` is `astToOrg`
      restricted to what may appear inside a JSX element. */
  lemma {:induction false} ChildWalkAgrees(n: Node)
    requires Phrasing(n)
    ensures ChildToOrg(n) == AstToOrg(n)
    decreases n
  {
    match n
    case Strong(cs) => ChildrenWalkAgrees(cs);
    case Emphasis(cs) => ChildrenWalkAgrees(cs);
    case Link(_, cs) => ChildrenWalkAgrees(cs);
    case _ =>
  }

  lemma {:induction false} ChildrenWalkAgrees(cs: seq<Node>)
    requires AllPhrasing(cs)
    ensures ChildrenJoined(cs) == Joined(cs)
    decreases cs
  {
    if |cs| > 0 {
      ChildWalkAgrees(cs[0]);
      ChildrenWalkAgrees(cs[1..]);
    }
  }

  /** Outside phrasing content, `childToOrg` drops a node entirely: a
      paragraph inside a JSX element disappears. */
  lemma BlockInsideJsxDropped(cs: seq<Node>, name: string)
    ensures ChildToOrg(Paragraph(cs)) == ""
    ensures JsxToString(name, [], [Paragraph(cs)]) == "<" + name + "></" + name + ">"
  {
    assert ChildrenJoined([Paragraph(cs)]) == "";
  }

  /** An attribute with an empty value is printed like one without a value. */
  lemma EmptyAttributeBare(name: string)
    ensures AttributeToString(JsxAttribute(name, Some(""))) == AttributeToString(JsxAttribute(name, None)) == " " + name
  {
  }

  // ---------------------------------------------------------------------
  // Keyword emission.

  /** `#+${key.toUpperCase()}: ${value}`. */
  function KeywordLine(k: string, v: string): string {
    "#+" + Upper(k) + ": " + v
  }

  function KeywordLines(fm: K.KeywordMap): (r: seq<string>)
    ensures |r| == |fm|
  {
    seq(|fm|, i requires 0 <= i < |fm| => KeywordLine(fm[i].0, fm[i].1))
  }

  /** The keyword block: the lines joined by `\n`, followed by a blank
      line unless there are none. */
  function KeywordBlock(fm: K.KeywordMap): string {
    var lines := Join(KeywordLines(fm), "\n");
    if lines == "" then "" else lines + "\n\n"
  }

  /** The result of the reverse conversion. */
  datatype OrgConversion = OrgConversion(keywords: string, org: string)

  function ConvertMdxToOrg(frontmatter: K.KeywordMap, tree: Node): OrgConversion {
    OrgConversion(KeywordBlock(frontmatter), AstToOrg(tree))
  }

  /** A value that survives being written after `: ` and read back. */
  predicate Trimmed(v: string) {
    |v| == 0 || (!IsSpace(v[0]) && !IsSpace(v[|v| - 1]))
  }

  /** Frontmatter the Org keyword syntax can carry: distinct lower-case
      word keys outside the skip set, one-line trimmed values. */
  predicate Emittable(fm: K.KeywordMap) {
    OM.KeysUnique(fm) &&
    forall i :: 0 <= i < |fm| ==>
      K.IsLowerWord(fm[i].0) && fm[i].0 !in C.SkipKeywords && NoLineTerminator(fm[i].1) && Trimmed(fm[i].1)
  }

  lemma UpperLowerWord(k: string)
    requires K.IsLowerWord(k)
    ensures |Upper(k)| >= 1 && AllWordChars(Upper(k)) && Lower(Upper(k)) == k
  {
  }

  /** Each emitted line is read back as its own entry. */
  lemma KeywordLineReadBack(k: string, v: string)
    requires K.IsLowerWord(k) && NoLineTerminator(v) && Trimmed(v)
    ensures K.ParseKeywordLine(KeywordLine(k, v)) == Some((k, v))
  {
    UpperLowerWord(k);
    SpaceThenValue(v);
    K.KeywordLineParses(Upper(k), " " + v);
    assert KeywordLine(k, v) == "#+" + Upper(k) + ":" + (" " + v);
  }

  lemma SpaceThenValue(v: string)
    requires NoLineTerminator(v) && Trimmed(v)
    ensures NoLineTerminator(" " + v) && Trim(" " + v) == v
  {
    assert forall j :: 1 <= j < |" " + v| ==> (" " + v)[j] == v[j - 1];
    TrimAfterSpaces(" ", v);
    TrimOfTrimmed(v);
  }

  lemma {:induction false} ExtractEmittedLines(fm: K.KeywordMap)
    requires Emittable(fm)
    ensures K.ExtractFromLines(KeywordLines(fm)) == fm
    decreases |fm|
  {
    if |fm| > 0 {
      var n := |fm| - 1;
      var pre := fm[..n];
      calc {
        K.ExtractFromLines(KeywordLines(fm));
        { LastKeywordLine(fm); }
        OM.Put(K.ExtractFromLines(KeywordLines(pre)), fm[n].0, fm[n].1);
        { EmittablePrefix(fm, n); ExtractEmittedLines(pre); }
        OM.Put(pre, fm[n].0, fm[n].1);
        { FreshLastKey(fm); }
        pre + [(fm[n].0, fm[n].1)];
        { assert pre + [fm[n]] == fm; }
        fm;
      }
    }
  }

  lemma FreshLastKey(fm: K.KeywordMap)
    requires OM.KeysUnique(fm) && |fm| > 0
    ensures !OM.HasKey(fm[..|fm| - 1], fm[|fm| - 1].0)
  {
    var n := |fm| - 1;
    forall i | 0 <= i < n ensures OM.Keys(fm[..n])[i] != fm[n].0 {
      assert fm[..n][i] == fm[i];
    }
  }

  lemma EmittablePrefix(fm: K.KeywordMap, n: nat)
    requires Emittable(fm) && n <= |fm|
    ensures Emittable(fm[..n])
  {
    assert forall i :: 0 <= i < n ==> fm[..n][i] == fm[i];
  }

  /** The last line appends the last entry to what the others produced. */
  lemma LastKeywordLine(fm: K.KeywordMap)
    requires Emittable(fm) && |fm| > 0
    ensures var n := |fm| - 1;
      K.ExtractFromLines(KeywordLines(fm)) == OM.Put(K.ExtractFromLines(KeywordLines(fm[..n])), fm[n].0, fm[n].1)
  {
    var n := |fm| - 1;
    var lines := KeywordLines(fm);
    assert lines[..n] == KeywordLines(fm[..n]);
    KeywordLineReadBack(fm[n].0, fm[n].1);
  }

  /** Emitting the keywords and reading them back with the line-based
      extractor gives the same entries in the same order. */
  lemma KeywordsRoundTrip(fm: K.KeywordMap)
    requires Emittable(fm)
    ensures K.ExtractOrgKeywords(Join(KeywordLines(fm), "\n")) == fm
  {
    var lines := KeywordLines(fm);
    if |fm| == 0 {
      NoNewlineIndex("");
      assert SplitLines("") == [""];
      K.ExtractOneLine("");
    } else {
      forall i | 0 <= i < |lines| ensures '\n' !in lines[i] && (|lines[i]| == 0 || lines[i][|lines[i]| - 1] != '\r') {
        LineWithoutBreaks(fm[i].0, fm[i].1);
      }
      SplitJoinLines(lines);
      ExtractEmittedLines(fm);
    }
  }

  lemma LineWithoutBreaks(k: string, v: string)
    requires K.IsLowerWord(k) && NoLineTerminator(v)
    ensures var l := KeywordLine(k, v); '\n' !in l && |l| > 0 && l[|l| - 1] != '\r'
  {
    var l := KeywordLine(k, v);
    var h := "#+" + Upper(k) + ": ";
    assert l == h + v;
    forall j | 0 <= j < |l| ensures l[j] != '\n' && (j == |l| - 1 ==> l[j] != '\r') {
      if j >= |h| {
        assert l[j] == v[j - |h|];
      } else if j >= 2 && j < 2 + |k| {
        UpperLowerWord(k);
        assert l[j] == Upper(k)[j - 2];
      } else {
        assert l[j] == h[j];
      }
    }
  }
}
