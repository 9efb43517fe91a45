/** The keyword and metadata layer: the line-based keyword extractor with
    its skip set, the two multiline-regex extractors, the callout-name
    lookup, the default title and the title/description/date defaulting. */
module Keywords {
  import opened Wrappers
  import opened Text
  import OM = OrderedMap
  import C = Constants

  /** `Record<string, string>`, keys in insertion order. */
  type KeywordMap = OM.Entries<string>

  predicate IsLowerWord(w: string) {
    |w| >= 1 && AllWordChars(w) && forall i :: 0 <= i < |w| ==> !IsUpper(w[i])
  }

  lemma LowerOfWord(w: string)
    requires |w| >= 1 && AllWordChars(w)
    ensures IsLowerWord(Lower(w))
  {
  }

  // ---------------------------------------------------------------------
  // Line-based extractor (skip set): `/^#\+(\w+):\s*(.*)$/` on each line.

  /** The keyword one line defines: the pattern has no `m` flag, so the
      optional whitespace may not be followed by a line terminator other
      than at the very end. */
  function ParseKeywordLine(line: string): (r: Option<(string, string)>)
    ensures r.Some? ==> IsLowerWord(r.value.0)
  {
    if !StartsWith(line, "#+") then None
    else
      var w := WordRun(line[2..]);
      if w == 0 || 2 + w >= |line| || line[2 + w] != ':' then None
      else
        var rest := line[3 + w..];
        if NoLineTerminator(TrimStart(rest)) then
          assert line[2..2 + w] == line[2..][..w];
          LowerOfWord(line[2..2 + w]);
          Some((Lower(line[2..2 + w]), Trim(rest)))
        else None
  }

  /** How `#+word:` followed by `tail` is taken apart by both patterns:
      the word run stops at the colon, and `tail` starts after it. */
  lemma KeywordPrefix(w: string, tail: string)
    requires |w| >= 1 && AllWordChars(w)
    ensures var line := "#+" + w + ":" + tail;
      OccursAt(line, 0, "#+") && StartsWith(line, "#+") && WordRun(line[2..]) == |w| &&
      2 + |w| < |line| && line[2 + |w|] == ':' && line[2..2 + |w|] == w && line[3 + |w|..] == tail
  {
    var line := "#+" + w + ":" + tail;
    assert line[2..] == w + (":" + tail);
    WordRunOf(w, ":" + tail);
  }

  /** Dropping leading whitespace keeps a text free of line terminators. */
  lemma TrimStartNoLineTerminator(rest: string)
    requires NoLineTerminator(rest)
    ensures NoLineTerminator(TrimStart(rest))
  {
    var t := TrimStart(rest);
    assert forall i :: 0 <= i < |t| ==> t[i] == rest[LeadingSpaces(rest) + i];
  }

  /** `#+word:rest` yields (lower-cased word, trimmed rest); an empty rest is
      kept as the empty value. */
  lemma KeywordLineParses(w: string, rest: string)
    requires |w| >= 1 && AllWordChars(w)
    requires NoLineTerminator(rest)
    ensures ParseKeywordLine("#+" + w + ":" + rest) == Some((Lower(w), Trim(rest)))
  {
    KeywordPrefix(w, rest);
    TrimStartNoLineTerminator(rest);
  }

  /** A line whose word is not directly followed by `:` (as in
      `#+begin_src js`) defines nothing. */
  lemma NoColonNoKeyword(w: string, rest: string)
    requires |w| >= 1 && AllWordChars(w)
    requires |rest| == 0 || (!IsWordChar(rest[0]) && rest[0] != ':')
    ensures ParseKeywordLine("#+" + w + rest) == None
  {
    var line := "#+" + w + rest;
    assert line[2..] == w + rest;
    WordRunOf(w, rest);
    assert |rest| > 0 ==> line[2 + |w|] == rest[0];
  }

  predicate Defines(line: string, k: string) {
    ParseKeywordLine(line).Some? && ParseKeywordLine(line).value.0 == k
  }

  /** The keywords of `lines`, folding left to right: `keywords[key] = value`
      for every matching line whose key is not skipped. */
  function ExtractFromLines(lines: seq<string>): (m: KeywordMap)
    ensures OM.KeysUnique(m)
    ensures forall k :: OM.HasKey(m, k) ==> k !in C.SkipKeywords
  {
    if |lines| == 0 then []
    else
      var m := ExtractFromLines(lines[..|lines| - 1]);
      match ParseKeywordLine(lines[|lines| - 1])
      case None => m
      case Some((k, v)) =>
        if k in C.SkipKeywords then m
        else
          OM.PutKeepsKeysUnique(m, k, v);
          var r := OM.Put(m, k, v);
          assert forall k1 :: OM.HasKey(r, k1) ==> k1 == k || OM.HasKey(m, k1);
          r
  }

  /** `extractOrgKeywords` of the line-based module: split on `\r?\n`, then fold. */
  function ExtractOrgKeywords(content: string): (m: KeywordMap)
    ensures OM.KeysUnique(m)
    ensures forall k :: OM.HasKey(m, k) ==> k !in C.SkipKeywords
  {
    ExtractFromLines(SplitLines(content))
  }

  /** Line `i` defines `k` as `v`, and no later line defines `k`. */
  predicate IsLastDefinition(lines: seq<string>, k: string, v: string, i: nat) {
    i < |lines| && ParseKeywordLine(lines[i]) == Some((k, v)) &&
    forall j :: i < j < |lines| ==> !Defines(lines[j], k)
  }

  /** When the last line defines `k` (not skipped), its value is the result. */
  lemma LastLineDefines(lines: seq<string>, k: string, v: string)
    requires |lines| >= 1 && k !in C.SkipKeywords && Defines(lines[|lines| - 1], k)
    ensures OM.Get(ExtractFromLines(lines), k) == Some(v) <==>
      exists i: nat :: IsLastDefinition(lines, k, v, i)
  {
    var n := |lines| - 1;
    var last := ParseKeywordLine(lines[n]).value;
    assert OM.Get(ExtractFromLines(lines), k) == Some(last.1);
    forall i: nat | IsLastDefinition(lines, k, v, i) ensures i == n {
    }
    if last.1 == v {
      assert IsLastDefinition(lines, k, v, n);
    }
  }

  /** When the last line does not define `k`, the result for `k` is the
      prefix's, and so is the last definition. */
  lemma LastLineSilent(lines: seq<string>, k: string, v: string)
    requires |lines| >= 1 && !Defines(lines[|lines| - 1], k)
    ensures OM.Get(ExtractFromLines(lines), k) == OM.Get(ExtractFromLines(lines[..|lines| - 1]), k)
    ensures var pre := lines[..|lines| - 1];
      (exists i: nat :: IsLastDefinition(lines, k, v, i)) <==> (exists i: nat :: IsLastDefinition(pre, k, v, i))
  {
    var n := |lines| - 1;
    var pre := lines[..n];
    SilentLineKeepsKey(lines, k);
    forall i: nat ensures IsLastDefinition(lines, k, v, i) <==> IsLastDefinition(pre, k, v, i) {
      SilentLineKeepsLast(lines, k, v, i);
    }
  }

  lemma SilentLineKeepsLast(lines: seq<string>, k: string, v: string, i: nat)
    requires |lines| >= 1 && !Defines(lines[|lines| - 1], k)
    ensures IsLastDefinition(lines, k, v, i) <==> IsLastDefinition(lines[..|lines| - 1], k, v, i)
  {
    if IsLastDefinition(lines, k, v, i) {
      LastDefinitionInPrefix(lines, k, v, i);
    }
    if IsLastDefinition(lines[..|lines| - 1], k, v, i) {
      LastDefinitionExtends(lines, k, v, i);
    }
  }

  lemma LastDefinitionInPrefix(lines: seq<string>, k: string, v: string, i: nat)
    requires |lines| >= 1 && !Defines(lines[|lines| - 1], k)
    requires IsLastDefinition(lines, k, v, i)
    ensures IsLastDefinition(lines[..|lines| - 1], k, v, i)
  {
    var pre := lines[..|lines| - 1];
    assert Defines(lines[i], k);
    assert i != |lines| - 1;
    assert pre[i] == lines[i];
    forall j | i < j < |pre| ensures !Defines(pre[j], k) {
      assert pre[j] == lines[j];
    }
  }

  lemma LastDefinitionExtends(lines: seq<string>, k: string, v: string, i: nat)
    requires |lines| >= 1 && !Defines(lines[|lines| - 1], k)
    requires IsLastDefinition(lines[..|lines| - 1], k, v, i)
    ensures IsLastDefinition(lines, k, v, i)
  {
    var pre := lines[..|lines| - 1];
    assert pre[i] == lines[i];
    forall j | i < j < |lines| ensures !Defines(lines[j], k) {
      if j < |pre| { assert pre[j] == lines[j]; }
    }
  }

  lemma SilentLineKeepsKey(lines: seq<string>, k: string)
    requires |lines| >= 1 && !Defines(lines[|lines| - 1], k)
    ensures OM.Get(ExtractFromLines(lines), k) == OM.Get(ExtractFromLines(lines[..|lines| - 1]), k)
  {
  }

  /** A key holds value `v` exactly when it is not skipped and the LAST line
      defining it gives `v`. */
  lemma {:induction false} ExtractLastWins(lines: seq<string>, k: string, v: string)
    ensures OM.Get(ExtractFromLines(lines), k) == Some(v) <==>
      k !in C.SkipKeywords && exists i: nat :: IsLastDefinition(lines, k, v, i)
  {
    if |lines| == 0 {
      return;
    }
    var n := |lines| - 1;
    if k in C.SkipKeywords {
      assert !OM.HasKey(ExtractFromLines(lines), k);
    } else if Defines(lines[n], k) {
      LastLineDefines(lines, k, v);
    } else {
      LastLineSilent(lines, k, v);
      ExtractLastWins(lines[..n], k, v);
    }
  }

  /** Keys of the skip set never come out, whatever the content. */
  lemma SkippedKeysAbsent(content: string)
    ensures OM.Get(ExtractOrgKeywords(content), "date").None?
    ensures OM.Get(ExtractOrgKeywords(content), "options").None?
    ensures OM.Get(ExtractOrgKeywords(content), "latex_header").None?
  {
  }

  /** `#+AUTHOR:` on its own gives the author the empty value: a keyword
      line with nothing after its colon still defines its key. */
  lemma EmptyValueKept(w: string)
    requires |w| >= 1 && AllWordChars(w)
    ensures ParseKeywordLine("#+" + w + ":") == Some((Lower(w), ""))
  {
    KeywordLineParses(w, "");
    assert "#+" + w + ":" + "" == "#+" + w + ":";
    TrimOfSpaces("");
  }

  /** A document of one keyword line yields exactly that keyword, unless it
      is skipped. */
  lemma OneLineDocument(line: string, k: string, v: string)
    requires '\n' !in line
    requires ParseKeywordLine(line) == Some((k, v))
    ensures ExtractOrgKeywords(line) == if k in C.SkipKeywords then [] else [(k, v)]
  {
    SingleLineSplit(line);
    ExtractOneLine(line);
  }

  lemma ExtractOneLine(line: string)
    ensures ExtractFromLines([line]) ==
      match ParseKeywordLine(line)
      case Some((k, v)) => if k in C.SkipKeywords then [] else [(k, v)]
      case None => []
  {
    assert [line][..0] == [];
  }

  lemma SingleLineSplit(line: string)
    requires '\n' !in line
    ensures SplitLines(line) == [line]
  {
    SplitJoinLines([line]);
  }

  lemma LowerOfUpperWord(w: string, l: string)
    requires |w| == |l|
    requires forall i :: 0 <= i < |w| ==> IsUpper(w[i]) && l[i] == (w[i] as int + 32) as char
    ensures Lower(w) == l
  {
  }

  /** Directive lines such as `#+HTML:` are keywords too. */
  lemma HtmlDirectiveIsKeyword(rest: string)
    requires NoLineTerminator(rest)
    ensures ParseKeywordLine("#+HTML:" + rest) == Some(("html", Trim(rest)))
  {
    HtmlWord();
    KeywordLineParses("HTML", rest);
  }

  /** The directive word `HTML`: a word run that lower-cases to `html`. */
  lemma HtmlWord()
    ensures "#+" + "HTML" + ":" == "#+HTML:"
    ensures AllWordChars("HTML") && Lower("HTML") == "html"
  {
    var w := "HTML";
    assert w[0] == 'H' && w[1] == 'T' && w[2] == 'M' && w[3] == 'L';
    LowerOfUpperWord(w, "html");
  }

  // ---------------------------------------------------------------------
  // Multiline-regex extractors: `/^#\+(\w+):\s*(.+)$/gm` run with `exec`.

  /** `^` under the `m` flag. */
  predicate AtLineStart(s: string, i: nat)
    requires i <= |s|
  {
    i == 0 || IsLineTerminator(s[i - 1])
  }

  /** `\s*(.+)$` may start its capture at `k` when it starts at `p`. */
  predicate CaptureStart(s: string, p: nat, k: nat) {
    p <= k < |s| && AllSpaces(s[p..k]) && !IsLineTerminator(s[k])
  }

  /** The last index in [p, e) that is not a line terminator. */
  function LastInlineBefore(s: string, p: nat, e: nat): (r: Option<nat>)
    requires p <= e <= |s|
    ensures r.Some? ==> p <= r.value < e && !IsLineTerminator(s[r.value])
    decreases e
  {
    if e == p then None
    else if !IsLineTerminator(s[e - 1]) then Some(e - 1)
    else LastInlineBefore(s, p, e - 1)
  }

  /** Only line terminators lie after the index found, and only line
      terminators lie in [p, e) when none is found. */
  lemma {:induction false} LastInlineBeforeIsLast(s: string, p: nat, e: nat)
    requires p <= e <= |s|
    ensures var r := LastInlineBefore(s, p, e);
      (r.Some? ==> forall k :: r.value < k < e ==> IsLineTerminator(s[k])) &&
      (r.None? ==> forall k :: p <= k < e ==> IsLineTerminator(s[k]))
    decreases e
  {
    if e > p && IsLineTerminator(s[e - 1]) {
      LastInlineBeforeIsLast(s, p, e - 1);
    }
  }

  /** Where `\s*(.+)$` started at `p` puts its capture (start, end): after
      the whitespace run when text follows it on the same line; when the
      whitespace reaches the end of the text, at its last non-terminator. */
  function RestOfLine(s: string, p: nat): (r: Option<(nat, nat)>)
    requires p <= |s|
    ensures r.Some? ==> p <= r.value.0 < r.value.1 <= |s|
  {
    var j := p + LeadingSpaces(s[p..]);
    if j < |s| then
      assert s[j] == s[p..][j - p];
      NonSpaceStartsLine(s, j);
      Some((j, j + LineEnd(s[j..])))
    else
      match LastInlineBefore(s, p, |s|)
      case None => None
      case Some(k) =>
        NonSpaceStartsLine(s, k);
        Some((k, k + LineEnd(s[k..])))
  }

  lemma NonSpaceStartsLine(s: string, k: nat)
    requires k < |s| && !IsLineTerminator(s[k])
    ensures LineEnd(s[k..]) >= 1
  {
    assert s[k..][0] == s[k];
  }

  /** The capture is where greedy whitespace followed by backtracking puts
      it: the LAST admissible start, running to the end of that line; and
      there is a match exactly when some start is admissible. */
  lemma RestOfLineGreedy(s: string, p: nat)
    requires p <= |s|
    ensures RestOfLine(s, p).Some? <==> exists k: nat :: CaptureStart(s, p, k)
    ensures RestOfLine(s, p).Some? ==> CaptureStart(s, p, RestOfLine(s, p).value.0)
    ensures RestOfLine(s, p).Some? ==> forall k: nat :: CaptureStart(s, p, k) ==> k <= RestOfLine(s, p).value.0
    ensures RestOfLine(s, p).Some? ==>
      RestOfLine(s, p).value.1 == RestOfLine(s, p).value.0 + LineEnd(s[RestOfLine(s, p).value.0..])
  {
    var j := p + LeadingSpaces(s[p..]);
    if j < |s| {
      GreedyStop(s, p);
    } else {
      GreedyBacktrack(s, p);
    }
  }

  /** Text after the whitespace run on the same line: the capture starts there. */
  lemma GreedyStop(s: string, p: nat)
    requires p <= |s| && p + LeadingSpaces(s[p..]) < |s|
    ensures var j := p + LeadingSpaces(s[p..]);
      CaptureStart(s, p, j) && forall k: nat :: CaptureStart(s, p, k) ==> k <= j
  {
    var j := p + LeadingSpaces(s[p..]);
    assert s[p..j] == s[p..][..j - p];
    assert s[j] == s[p..][j - p];
    LineTerminatorIsSpace(s[j]);
    assert CaptureStart(s, p, j);
    forall k: nat | CaptureStart(s, p, k) ensures k <= j {
      if k > j { SpaceInsideSlice(s, p, j, k); }
    }
  }

  /** Whitespace to the end of the text: the capture backs up to the last
      character that is not a line terminator, if any. */
  lemma GreedyBacktrack(s: string, p: nat)
    requires p <= |s| && p + LeadingSpaces(s[p..]) == |s|
    ensures var r := LastInlineBefore(s, p, |s|);
      (r.None? ==> forall k: nat :: !CaptureStart(s, p, k)) &&
      (r.Some? ==> CaptureStart(s, p, r.value) && forall k: nat :: CaptureStart(s, p, k) ==> k <= r.value)
  {
    LastInlineBeforeIsLast(s, p, |s|);
    match LastInlineBefore(s, p, |s|)
    case None =>
      assert forall k: nat :: !CaptureStart(s, p, k);
    case Some(k) =>
      SpacesBefore(s, p, k);
  }

  /** Within a whitespace run that reaches the end, every prefix is whitespace. */
  lemma SpacesBefore(s: string, p: nat, k: nat)
    requires p <= k <= |s| && p + LeadingSpaces(s[p..]) == |s|
    ensures AllSpaces(s[p..k])
  {
    var ws := s[p..][..LeadingSpaces(s[p..])];
    forall i | 0 <= i < k - p ensures IsSpace(s[p..k][i]) {
      assert s[p..k][i] == ws[i];
    }
  }

  /** Every character inside a whitespace slice is whitespace. */
  lemma SpaceInsideSlice(s: string, p: nat, j: nat, k: nat)
    requires p <= j < k <= |s| && AllSpaces(s[p..k])
    ensures IsSpace(s[j])
  {
    assert s[p..k][j - p] == s[j];
  }

  /** Text after whitespace on the same line is captured whole. */
  lemma RestOfLineAfterSpaces(s: string, p: nat, ws: string, t: string)
    requires p <= |s| && s[p..] == ws + t
    requires AllSpaces(ws)
    requires |t| >= 1 && NoLineTerminator(t) && !IsSpace(t[0])
    ensures RestOfLine(s, p) == Some((p + |ws|, |s|)) && s[p + |ws|..] == t
  {
    LeadingSpacesOf(ws, t);
    assert s[p + |ws|..] == t + "";
    LineEndOf(t, "");
  }

  /** One match of the keyword pattern starting at `i`: lower-cased key,
      trimmed value, and the index where the match ends. */
  function KeywordMatchAt(s: string, i: nat): (r: Option<(string, string, nat)>)
    requires i <= |s|
    ensures r.Some? ==> i < r.value.2 <= |s| && IsLowerWord(r.value.0)
  {
    if !OccursAt(s, i, "#+") then None
    else
      var w := WordRun(s[i + 2..]);
      if w == 0 || i + 2 + w >= |s| || s[i + 2 + w] != ':' then None
      else
        match RestOfLine(s, i + 3 + w)
        case None => None
        case Some((b, e)) =>
          assert s[i + 2..i + 2 + w] == s[i + 2..][..w];
          LowerOfWord(s[i + 2..i + 2 + w]);
          Some((Lower(s[i + 2..i + 2 + w]), Trim(s[b..e]), e))
  }

  /** Keys are unique and, when the skip set applies, none of them is skipped. */
  predicate WellFormed(m: KeywordMap, skip: bool) {
    OM.KeysUnique(m) && (skip ==> forall k :: OM.HasKey(m, k) ==> k !in C.SkipKeywords)
  }

  /** `keywords[key] = value`, unless the skip set applies and holds `key`. */
  function AddKeyword(m: KeywordMap, k: string, v: string, skip: bool): (r: KeywordMap)
    ensures WellFormed(m, skip) ==> WellFormed(r, skip)
    ensures skip && k in C.SkipKeywords ==> r == m
    ensures !(skip && k in C.SkipKeywords) ==> OM.Get(r, k) == Some(v)
    ensures forall k1 :: k1 != k ==> OM.Get(r, k1) == OM.Get(m, k1)
  {
    if skip && k in C.SkipKeywords then m
    else
      OM.PutKeepsKeysUnique(m, k, v);
      OM.PutAddsOnlyItsKey(m, k, v);
      OM.Put(m, k, v)
  }

  /** The `exec` loop from index `i`, adding to `m`; with `skip` the skip set
      is honoured (the converter's extractor), without it every key is kept
      (the older utility extractor). */
  function ScanKeywords(s: string, i: nat, m: KeywordMap, skip: bool): (r: KeywordMap)
    requires i <= |s|
    ensures WellFormed(m, skip) ==> WellFormed(r, skip)
    decreases |s| - i
  {
    if i == |s| then m
    else if AtLineStart(s, i) && KeywordMatchAt(s, i).Some? then
      var (k, v, e) := KeywordMatchAt(s, i).value;
      ScanKeywords(s, e, AddKeyword(m, k, v, skip), skip)
    else ScanKeywords(s, i + 1, m, skip)
  }

  function ExtractByRegex(content: string, skip: bool): (m: KeywordMap)
    ensures OM.KeysUnique(m)
    ensures skip ==> forall k :: OM.HasKey(m, k) ==> k !in C.SkipKeywords
  {
    assert WellFormed([], skip);
    ScanKeywords(content, 0, [], skip)
  }

  /** A match the `exec` loop takes: where it starts, its key and value,
      and where it ends. */
  datatype Taken = Taken(at: nat, key: string, value: string, end: nat)

  /** The matches the `exec` loop takes from index `i`, in order, each
      starting at or after the end of the one before. */
  function TakenMatches(s: string, i: nat): (r: seq<Taken>)
    requires i <= |s|
    ensures forall j :: 0 <= j < |r| ==> i <= r[j].at < r[j].end <= |s|
    ensures forall j :: 0 <= j < |r| - 1 ==> r[j].end <= r[j + 1].at
    decreases |s| - i
  {
    if i == |s| then []
    else if AtLineStart(s, i) && KeywordMatchAt(s, i).Some? then
      var m := KeywordMatchAt(s, i).value;
      var rest := TakenMatches(s, m.2);
      ConsTaken(Taken(i, m.0, m.1, m.2), rest, i, |s|);
      [Taken(i, m.0, m.1, m.2)] + rest
    else TakenMatches(s, i + 1)
  }

  /** A match followed by later, ordered matches stays ordered. */
  lemma ConsTaken(t: Taken, rest: seq<Taken>, i: nat, n: nat)
    requires i <= t.at < t.end <= n
    requires forall j :: 0 <= j < |rest| ==> t.end <= rest[j].at < rest[j].end <= n
    requires forall j :: 0 <= j < |rest| - 1 ==> rest[j].end <= rest[j + 1].at
    ensures forall j :: 0 <= j < |[t] + rest| ==> i <= ([t] + rest)[j].at < ([t] + rest)[j].end <= n
    ensures forall j :: 0 <= j < |[t] + rest| - 1 ==> ([t] + rest)[j].end <= ([t] + rest)[j + 1].at
  {
  }

  /** At a line-start match the loop takes it and resumes at its end. */
  lemma TakenHead(s: string, i: nat)
    requires i < |s| && AtLineStart(s, i) && KeywordMatchAt(s, i).Some?
    ensures var m := KeywordMatchAt(s, i).value;
      TakenMatches(s, i) == [Taken(i, m.0, m.1, m.2)] + TakenMatches(s, m.2)
  {
  }

  /** Elsewhere the loop moves on one character. */
  lemma TakenSkip(s: string, i: nat)
    requires i < |s| && !(AtLineStart(s, i) && KeywordMatchAt(s, i).Some?)
    ensures TakenMatches(s, i) == TakenMatches(s, i + 1)
  {
  }

  /** Each taken match is a keyword match at a line start. */
  lemma {:induction false} TakenMatchSound(s: string, i: nat, j: nat)
    requires i <= |s| && j < |TakenMatches(s, i)|
    ensures var t := TakenMatches(s, i)[j];
      AtLineStart(s, t.at) && KeywordMatchAt(s, t.at) == Some((t.key, t.value, t.end))
    decreases |s| - i
  {
    var r := TakenMatches(s, i);
    if AtLineStart(s, i) && KeywordMatchAt(s, i).Some? {
      var m := KeywordMatchAt(s, i).value;
      var e: nat := m.2;
      TakenHead(s, i);
      if j > 0 {
        var rest := TakenMatches(s, e);
        assert r[j] == rest[j - 1];
        TakenMatchSound(s, e, j - 1);
      } else {
        assert r[0] == Taken(i, m.0, m.1, e);
        assert KeywordMatchAt(s, i) == Some((m.0, m.1, e));
      }
    } else {
      var i1: nat := i + 1;
      TakenSkip(s, i);
      assert r == TakenMatches(s, i1);
      TakenMatchSound(s, i1, j);
    }
  }

  /** No taken match from `i` on covers `p` strictly inside it. */
  predicate Uncovered(s: string, i: nat, p: nat)
    requires i <= |s|
  {
    forall j :: 0 <= j < |TakenMatches(s, i)| ==> !(TakenMatches(s, i)[j].at < p < TakenMatches(s, i)[j].end)
  }

  /** Every line-start match from `i` on that no taken match covers is
      itself taken: the loop misses only matches inside an earlier one. */
  lemma {:induction false} TakenMatchesComplete(s: string, i: nat, p: nat)
    requires i <= p < |s| && AtLineStart(s, p) && KeywordMatchAt(s, p).Some?
    requires Uncovered(s, i, p)
    ensures exists j :: 0 <= j < |TakenMatches(s, i)| && TakenMatches(s, i)[j].at == p
    decreases |s| - i, 1
  {
    if AtLineStart(s, i) && KeywordMatchAt(s, i).Some? {
      CompleteAfterHead(s, i, p);
    } else {
      CompleteAfterSkip(s, i, p);
    }
  }

  /** The step of `TakenMatchesComplete` at a match the loop takes. */
  lemma {:induction false} CompleteAfterHead(s: string, i: nat, p: nat)
    requires i <= p < |s| && AtLineStart(s, p) && KeywordMatchAt(s, p).Some?
    requires AtLineStart(s, i) && KeywordMatchAt(s, i).Some?
    requires Uncovered(s, i, p)
    ensures exists j :: 0 <= j < |TakenMatches(s, i)| && TakenMatches(s, i)[j].at == p
    decreases |s| - i, 0
  {
    var r := TakenMatches(s, i);
    var e: nat := KeywordMatchAt(s, i).value.2;
    TakenHead(s, i);
    assert r[0].at == i && r[0].end == e && r[1..] == TakenMatches(s, e);
    if p == i {
      assert r[0].at == p;
    } else {
      UncoveredTail(r, p);
      assert Uncovered(s, e, p);
      TakenMatchesComplete(s, e, p);
      FoundInTail(r, p);
    }
  }

  /** What no element of a sequence covers, no element of its tail covers. */
  lemma UncoveredTail(r: seq<Taken>, p: nat)
    requires |r| > 0
    requires forall j :: 0 <= j < |r| ==> !(r[j].at < p < r[j].end)
    ensures forall j :: 0 <= j < |r[1..]| ==> !(r[1..][j].at < p < r[1..][j].end)
  {
    forall j | 0 <= j < |r[1..]| ensures !(r[1..][j].at < p < r[1..][j].end) {
      assert r[1..][j] == r[j + 1];
    }
  }

  /** A start found in the tail is found in the sequence. */
  lemma FoundInTail(r: seq<Taken>, p: nat)
    requires |r| > 0
    requires exists j :: 0 <= j < |r[1..]| && r[1..][j].at == p
    ensures exists j :: 0 <= j < |r| && r[j].at == p
  {
    var j :| 0 <= j < |r[1..]| && r[1..][j].at == p;
    assert r[j + 1] == r[1..][j];
  }

  /** The step of `TakenMatchesComplete` where the loop moves on. */
  lemma {:induction false} CompleteAfterSkip(s: string, i: nat, p: nat)
    requires i <= p < |s| && AtLineStart(s, p) && KeywordMatchAt(s, p).Some?
    requires !(AtLineStart(s, i) && KeywordMatchAt(s, i).Some?)
    requires Uncovered(s, i, p)
    ensures exists j :: 0 <= j < |TakenMatches(s, i)| && TakenMatches(s, i)[j].at == p
    decreases |s| - i, 0
  {
    var r := TakenMatches(s, i);
    TakenSkip(s, i);
    assert i != p;
    var i1: nat := i + 1;
    assert r == TakenMatches(s, i1);
    assert Uncovered(s, i1, p);
    TakenMatchesComplete(s, i1, p);
    var j :| 0 <= j < |TakenMatches(s, i1)| && TakenMatches(s, i1)[j].at == p;
    assert r[j].at == p;
  }

  /** The loop body applied to the taken matches one after another. */
  function AddAll(m: KeywordMap, xs: seq<Taken>, skip: bool): KeywordMap
    decreases |xs|
  {
    if |xs| == 0 then m else AddAll(AddKeyword(m, xs[0].key, xs[0].value, skip), xs[1..], skip)
  }

  /** The `exec` loop adds exactly the matches it takes, in order. */
  lemma {:induction false} ScanIsFold(s: string, i: nat, m: KeywordMap, skip: bool)
    requires i <= |s|
    ensures ScanKeywords(s, i, m, skip) == AddAll(m, TakenMatches(s, i), skip)
    decreases |s| - i
  {
    if i < |s| {
      if AtLineStart(s, i) && KeywordMatchAt(s, i).Some? {
        var t := KeywordMatchAt(s, i).value;
        var e: nat := t.2;
        TakenHead(s, i);
        var xs := TakenMatches(s, i);
        assert xs[0] == Taken(i, t.0, t.1, e) && xs[1..] == TakenMatches(s, e);
        var m1 := AddKeyword(m, t.0, t.1, skip);
        assert ScanKeywords(s, i, m, skip) == ScanKeywords(s, e, m1, skip);
        ScanIsFold(s, e, m1, skip);
      } else {
        var i1: nat := i + 1;
        TakenSkip(s, i);
        assert ScanKeywords(s, i, m, skip) == ScanKeywords(s, i1, m, skip);
        ScanIsFold(s, i1, m, skip);
      }
    }
  }

  /** Taken match `j` sets `k` to `v`, and no later taken match sets `k`. */
  predicate IsLastTaken(xs: seq<Taken>, k: string, v: string, j: nat) {
    j < |xs| && xs[j].key == k && xs[j].value == v &&
    forall j2 :: j < j2 < |xs| ==> xs[j2].key != k
  }

  /** The last taken match for `k` is the first one exactly when no later
      one sets `k`; otherwise it is among the rest. */
  lemma LastTakenSplit(xs: seq<Taken>, k: string, v: string)
    requires |xs| > 0
    ensures (exists j: nat :: IsLastTaken(xs, k, v, j)) <==>
      (exists j: nat :: IsLastTaken(xs[1..], k, v, j)) ||
      (xs[0].key == k && xs[0].value == v && forall j :: 0 <= j < |xs[1..]| ==> xs[1..][j].key != k)
  {
    var rest := xs[1..];
    forall j: nat | IsLastTaken(rest, k, v, j) ensures IsLastTaken(xs, k, v, j + 1) {
      forall j2 | j + 1 < j2 < |xs| ensures xs[j2].key != k {
        assert xs[j2] == rest[j2 - 1];
      }
    }
    forall j: nat | IsLastTaken(xs, k, v, j) && j >= 1 ensures IsLastTaken(rest, k, v, j - 1) {
      forall j2 | j - 1 < j2 < |rest| ensures rest[j2].key != k {
        assert rest[j2] == xs[j2 + 1];
      }
    }
    if xs[0].key == k && xs[0].value == v && forall j :: 0 <= j < |rest| ==> rest[j].key != k {
      assert IsLastTaken(xs, k, v, 0);
    }
  }

  /** With `k` not skipped, the last taken match for `k` decides its value;
      without one, the starting value stays. */
  lemma {:induction false} AddAllLastWins(m: KeywordMap, xs: seq<Taken>, skip: bool, k: string, v: string)
    requires !(skip && k in C.SkipKeywords)
    ensures OM.Get(AddAll(m, xs, skip), k) == Some(v) <==>
      (exists j: nat :: IsLastTaken(xs, k, v, j)) || (OM.Get(m, k) == Some(v) && forall j :: 0 <= j < |xs| ==> xs[j].key != k)
    decreases |xs|
  {
    if |xs| > 0 {
      var m1 := AddKeyword(m, xs[0].key, xs[0].value, skip);
      var rest := xs[1..];
      AddAllLastWins(m1, rest, skip, k, v);
      LastTakenSplit(xs, k, v);
      if forall j :: 0 <= j < |rest| ==> rest[j].key != k {
        forall j | 1 <= j < |xs| ensures xs[j].key != k {
          assert xs[j] == rest[j - 1];
        }
        if xs[0].key != k {
          assert OM.Get(m1, k) == OM.Get(m, k);
        }
      } else {
        var j0 :| 0 <= j0 < |rest| && rest[j0].key == k;
        assert xs[j0 + 1].key == k;
      }
    }
  }

  /** With the skip set applied, a skipped key keeps its starting value. */
  lemma {:induction false} AddAllSkipped(m: KeywordMap, xs: seq<Taken>, k: string)
    requires k in C.SkipKeywords
    ensures OM.Get(AddAll(m, xs, true), k) == OM.Get(m, k)
    decreases |xs|
  {
    if |xs| > 0 {
      AddAllSkipped(AddKeyword(m, xs[0].key, xs[0].value, true), xs[1..], k);
    }
  }

  /** The regex extractor's last-wins rule: `k` has value `v` exactly when
      `k` is not skipped, some match the loop takes sets it to `v`, and no
      later match the loop takes sets `k` again. */
  lemma ExtractByRegexLastWins(s: string, skip: bool, k: string, v: string)
    ensures OM.Get(ExtractByRegex(s, skip), k) == Some(v) <==>
      !(skip && k in C.SkipKeywords) && exists j: nat :: IsLastTaken(TakenMatches(s, 0), k, v, j)
  {
    ScanIsFold(s, 0, [], skip);
    var empty: KeywordMap := [];
    assert OM.Get(empty, k).None?;
    if skip && k in C.SkipKeywords {
      AddAllSkipped([], TakenMatches(s, 0), k);
    } else {
      AddAllLastWins([], TakenMatches(s, 0), skip, k, v);
    }
  }

  /** Past the first line start, a text without line terminators offers no
      further match. */
  lemma {:induction false} ScanSingleLineRest(s: string, i: nat, m: KeywordMap, skip: bool)
    requires 1 <= i <= |s|
    requires NoLineTerminator(s)
    ensures ScanKeywords(s, i, m, skip) == m
    decreases |s| - i
  {
    if i < |s| {
      assert !AtLineStart(s, i);
      ScanSingleLineRest(s, i + 1, m, skip);
    }
  }

  /** `#+word:` at the start of `s`: the shape both the line pattern and
      the regex recognise, with a word run of `n` characters. */
  predicate KeywordHead(s: string, n: nat) {
    OccursAt(s, 0, "#+") && n >= 1 && 2 + n < |s| && WordRun(s[2..]) == n && s[2 + n] == ':'
  }

  /** Every `#+word:` line prefix has that shape. */
  lemma KeywordPrefixIsHead(w: string, tail: string)
    requires |w| >= 1 && AllWordChars(w)
    ensures var s := "#+" + w + ":" + tail;
      KeywordHead(s, |w|) && s[2..2 + |w|] == w && s[3 + |w|..] == tail
  {
    KeywordPrefix(w, tail);
  }

  /** The match at the document start, from its parts: the head, and a
      capture from `b` to the end. */
  lemma KeywordMatchFromParts(s: string, n: nat, b: nat, t: string)
    requires KeywordHead(s, n)
    requires RestOfLine(s, 3 + n) == Some((b, |s|)) && s[b..] == t
    ensures KeywordMatchAt(s, 0) == Some((Lower(s[2..2 + n]), Trim(t), |s|))
  {
    KeywordMatchAtHead(s, n);
    assert s[b..|s|] == t;
  }

  /** At a keyword head the match is decided by the capture after the colon. */
  lemma KeywordMatchAtHead(s: string, n: nat)
    requires KeywordHead(s, n)
    ensures var c := RestOfLine(s, 3 + n); c.Some? ==> KeywordMatchAt(s, 0) == Some((Lower(s[2..2 + n]), Trim(s[c.value.0..c.value.1]), c.value.1))
  {
  }

  /** A document that is one keyword match from start to end yields that one
      entry (unless skipped). */
  lemma ScanWholeMatch(s: string, k: string, v: string, skip: bool)
    requires KeywordMatchAt(s, 0) == Some((k, v, |s|))
    ensures ExtractByRegex(s, skip) == if skip && k in C.SkipKeywords then [] else [(k, v)]
  {
    calc {
      ExtractByRegex(s, skip);
      ScanKeywords(s, 0, [], skip);
      { assert AtLineStart(s, 0); }
      ScanKeywords(s, |s|, AddKeyword([], k, v, skip), skip);
      AddKeyword([], k, v, skip);
    }
  }

  /** The regex's `\s*` crosses line breaks: a keyword followed by
      whitespace (line breaks included) and then text takes that text, up to
      its line end, as its value. When the text is the rest of the document,
      the document yields that one entry. */
  lemma RegexValueFromFollowingText(s: string, n: nat, ws: string, t: string, skip: bool)
    requires KeywordHead(s, n) && s[3 + n..] == ws + t
    requires AllSpaces(ws)
    requires |t| >= 1 && NoLineTerminator(t) && !IsSpace(t[0])
    ensures ExtractByRegex(s, skip) ==
      if skip && Lower(s[2..2 + n]) in C.SkipKeywords then [] else [(Lower(s[2..2 + n]), Trim(t))]
  {
    FollowingTextMatch(s, n, ws, t);
    ScanWholeMatch(s, Lower(s[2..2 + n]), Trim(t), skip);
  }

  lemma FollowingTextMatch(s: string, n: nat, ws: string, t: string)
    requires KeywordHead(s, n) && s[3 + n..] == ws + t
    requires AllSpaces(ws)
    requires |t| >= 1 && NoLineTerminator(t) && !IsSpace(t[0])
    ensures KeywordMatchAt(s, 0) == Some((Lower(s[2..2 + n]), Trim(t), |s|))
  {
    RestOfLineAfterSpaces(s, 3 + n, ws, t);
    KeywordMatchFromParts(s, n, 3 + n + |ws|, t);
  }

  /** `#+TITLE:` directly above `#+AUTHOR: Bob` takes the whole author line
      as the title, and no author is extracted: for any keyword with nothing
      after its colon, followed by a line break and a further line `next`
      (such as a second keyword line), the document yields one entry whose
      value is `next`. */
  lemma RegexKeywordSwallowsNextLine(s: string, n: nat, next: string)
    requires KeywordHead(s, n) && s[3 + n..] == "\n" + next
    requires |next| >= 1 && NoLineTerminator(next) && !IsSpace(next[0]) && !IsSpace(next[|next| - 1])
    ensures ExtractByRegex(s, true) ==
      if Lower(s[2..2 + n]) in C.SkipKeywords then [] else [(Lower(s[2..2 + n]), next)]
  {
    assert AllSpaces("\n");
    TrimOfTrimmed(next);
    RegexValueFromFollowingText(s, n, "\n", next, true);
  }

  /** Unlike the line-based extractor, the regex needs a non-empty value:
      `#+AUTHOR:` alone yields nothing... */
  lemma RegexNeedsValue(w: string, skip: bool)
    requires |w| >= 1 && AllWordChars(w)
    ensures ExtractByRegex("#+" + w + ":", skip) == []
  {
    var s := "#+" + w + ":";
    assert s[2..] == w + ":";
    WordRunOf(w, ":");
    assert KeywordMatchAt(s, 0).None?;
    assert NoLineTerminator(s) by {
      assert forall i :: 0 <= i < |s| ==> s[i] == '#' || s[i] == '+' || s[i] == ':' || IsWordChar(s[i]);
    }
    ScanSingleLineRest(s, 1, [], skip);
  }

  /** ...while one trailing space is handed back by the greedy whitespace and
      becomes the (trimmed, hence empty) value. */
  lemma RegexTrailingSpaceValue(w: string)
    requires |w| >= 1 && AllWordChars(w)
    ensures ExtractByRegex("#+" + w + ": ", false) == [(Lower(w), "")]
  {
    TrailingSpaceMatch(w);
    ScanWholeMatch("#+" + w + ": ", Lower(w), "", false);
  }

  lemma TrailingSpaceMatch(w: string)
    requires |w| >= 1 && AllWordChars(w)
    ensures var s := "#+" + w + ": "; KeywordMatchAt(s, 0) == Some((Lower(w), "", |s|))
  {
    var s := "#+" + w + ": ";
    var p := 3 + |w|;
    TrailingSpaceShape(w);
    TrailingSpaceCapture(s, p);
    assert s[2..2 + |w|] == w;
    TrimOfSpaces(" ");
  }

  lemma TrailingSpaceShape(w: string)
    requires |w| >= 1 && AllWordChars(w)
    ensures var s := "#+" + w + ": ";
      OccursAt(s, 0, "#+") && WordRun(s[2..]) == |w| && s[2 + |w|] == ':' && s[3 + |w|] == ' ' && |s| == |w| + 4
  {
    var s := "#+" + w + ": ";
    assert s[2..] == w + ": ";
    WordRunOf(w, ": ");
  }

  lemma TrailingSpaceCapture(s: string, p: nat)
    requires p + 1 == |s| && s[p] == ' '
    ensures RestOfLine(s, p) == Some((p, p + 1)) && s[p..p + 1] == " "
  {
    assert s[p..] == " ";
    assert LeadingSpaces(s[p..]) == 1;
    assert LastInlineBefore(s, p, |s|) == Some(p);
    LineEndOf(" ", "");
  }

  // ---------------------------------------------------------------------
  // Callout lookup.

  /** `getCalloutTypeFromOrgType`: a case-insensitive lookup of the six
      callout names, `null` (None) otherwise. */
  function CalloutTypeOf(orgType: string): (r: Option<string>)
    ensures r.Some? <==> Lower(orgType) in C.CalloutNames
    ensures r.Some? ==> r.value == Lower(orgType)
  {
    C.CalloutTypeMapIdentity();
    var l := Lower(orgType);
    if l in C.CalloutTypeMap && C.CalloutTypeMap[l] != "" then Some(C.CalloutTypeMap[l]) else None
  }

  /** The lookup as written: indexing an object literal also finds the
      properties it inherits. Of those, exactly `constructor` (the
      `Object` function) and `__proto__` (`Object.prototype`) have all-lower-case
      names and truthy values; the callout type is their string form. */
  /** The string form of JavaScript's `Object` function. */
  const ObjectFunctionText: string := "function Object() { [native code] }"

  function CalloutTypeAsWritten(orgType: string): (r: Option<string>)
    ensures Lower(orgType) in C.CalloutNames ==> r == Some(Lower(orgType))
    ensures r.None? <==> Lower(orgType) !in C.CalloutNames + ["constructor", "__proto__"]
  {
    var l := Lower(orgType);
    if l == "constructor" then Some(ObjectFunctionText)
    else if l == "__proto__" then Some("[object Object]")
    else CalloutTypeOf(orgType)
  }

  /** `#+begin_constructor` is taken for a callout block by the lookup as
      written, but not by the intended six-name lookup. */
  lemma CalloutLookupFindsInheritedProperty()
    ensures CalloutTypeAsWritten("constructor") == Some(ObjectFunctionText)
    ensures CalloutTypeAsWritten("__proto__") == Some("[object Object]")
    ensures CalloutTypeOf("constructor").None? && CalloutTypeOf("__proto__").None?
  {
    ConstructorLookup();
    ProtoLookup();
  }

  lemma ConstructorLookup()
    ensures CalloutTypeAsWritten("constructor") == Some(ObjectFunctionText)
    ensures CalloutTypeOf("constructor").None?
  {
    LowerOfLowerWord("constructor");
  }

  lemma ProtoLookup()
    ensures CalloutTypeAsWritten("__proto__") == Some("[object Object]")
    ensures CalloutTypeOf("__proto__").None?
  {
    LowerOfLowerWord("__proto__");
  }

  lemma LowerOfLowerWord(w: string)
    requires forall i :: 0 <= i < |w| ==> !IsUpper(w[i])
    ensures Lower(w) == w
  {
  }

  // ---------------------------------------------------------------------
  // Default title.

  /** `\w` once `-` and `_` have become spaces. */
  predicate IsTitleWordChar(c: char) {
    IsWordChar(c) && c != '_'
  }

  /** `\b\w` holds at `i` of the filename with separators replaced. */
  predicate StartsTitleWord(f: string, i: nat)
    requires i < |f|
  {
    IsTitleWordChar(f[i]) && (i == 0 || !IsTitleWordChar(f[i - 1]))
  }

  function SeparatorsToSpaces(s: string): (r: string)
    ensures |r| == |s|
    ensures forall i :: 0 <= i < |s| ==> r[i] == (if s[i] == '-' || s[i] == '_' then ' ' else s[i])
  {
    if |s| == 0 then "" else [if s[0] == '-' || s[0] == '_' then ' ' else s[0]] + SeparatorsToSpaces(s[1..])
  }

  /** `.replace(/\b\w/g, toUpperCase)`, with `afterWord` telling whether a
      word character precedes `s`. */
  function CapitalizeWordStarts(s: string, afterWord: bool): (r: string)
    ensures |r| == |s|
    ensures forall i :: 0 <= i < |s| ==>
      r[i] == (if IsWordChar(s[i]) && !(if i == 0 then afterWord else IsWordChar(s[i - 1]))
               then ToUpperChar(s[i]) else s[i])
  {
    if |s| == 0 then ""
    else
      var c := if IsWordChar(s[0]) && !afterWord then ToUpperChar(s[0]) else s[0];
      var rest := CapitalizeWordStarts(s[1..], IsWordChar(s[0]));
      var r := [c] + rest;
      forall i | 0 <= i < |s|
        ensures r[i] == (if IsWordChar(s[i]) && !(if i == 0 then afterWord else IsWordChar(s[i - 1]))
                         then ToUpperChar(s[i]) else s[i])
      {
        if i >= 1 {
          assert r[i] == rest[i - 1] && s[1..][i - 1] == s[i];
          assert i >= 2 ==> s[1..][i - 2] == s[i - 1];
        }
      }
      r
  }

  /** `generateDefaultTitle`: separators become spaces and each word starts
      with a capital; nothing else changes and the length is kept. */
  function GenerateDefaultTitle(filename: string): (r: string)
    ensures |r| == |filename|
    ensures forall i :: 0 <= i < |r| ==> r[i] != '-' && r[i] != '_'
    ensures forall i :: 0 <= i < |filename| ==>
      r[i] == (if filename[i] == '-' || filename[i] == '_' then ' '
               else if StartsTitleWord(filename, i) then ToUpperChar(filename[i])
               else filename[i])
  {
    var spaced := SeparatorsToSpaces(filename);
    var r := CapitalizeWordStarts(spaced, false);
    assert forall i :: 0 <= i < |filename| ==> (IsWordChar(spaced[i]) <==> IsTitleWordChar(filename[i]));
    assert forall i :: 0 <= i < |filename| ==>
      r[i] == (if filename[i] == '-' || filename[i] == '_' then ' '
               else if StartsTitleWord(filename, i) then ToUpperChar(filename[i])
               else filename[i]) by {
      forall i | 0 <= i < |filename|
        ensures r[i] == (if filename[i] == '-' || filename[i] == '_' then ' '
                         else if StartsTitleWord(filename, i) then ToUpperChar(filename[i])
                         else filename[i])
      {
        assert i > 0 ==> (IsWordChar(spaced[i - 1]) <==> IsTitleWordChar(filename[i - 1]));
      }
    }
    r
  }

  /** A title is its own default title. */
  lemma DefaultTitleIdempotent(filename: string)
    ensures GenerateDefaultTitle(GenerateDefaultTitle(filename)) == GenerateDefaultTitle(filename)
  {
    var r := GenerateDefaultTitle(filename);
    var rr := GenerateDefaultTitle(r);
    assert forall i :: 0 <= i < |r| ==> (IsTitleWordChar(r[i]) <==> IsTitleWordChar(filename[i]));
    assert forall i :: 0 <= i < |r| ==> (StartsTitleWord(r, i) <==> StartsTitleWord(filename, i));
    assert forall i :: 0 <= i < |r| ==> rr[i] == r[i];
  }

  /** Words on either side of a separator are titled independently, so
      `my-notes` gives `My Notes`. */
  lemma DefaultTitleSplitsAtSeparator(a: string, sep: char, b: string)
    requires sep == '-' || sep == '_' || sep == ' '
    ensures GenerateDefaultTitle(a + [sep] + b) == GenerateDefaultTitle(a) + " " + GenerateDefaultTitle(b)
  {
    var f := a + [sep] + b;
    var r := GenerateDefaultTitle(f);
    var e := GenerateDefaultTitle(a) + " " + GenerateDefaultTitle(b);
    forall i | 0 <= i < |f| ensures r[i] == e[i] {
      TitleAroundSeparator(a, sep, b, i);
    }
  }

  lemma TitleAroundSeparator(a: string, sep: char, b: string, i: nat)
    requires sep == '-' || sep == '_' || sep == ' '
    requires i < |a| + 1 + |b|
    ensures GenerateDefaultTitle(a + [sep] + b)[i] == (GenerateDefaultTitle(a) + " " + GenerateDefaultTitle(b))[i]
  {
    var ta, tb := GenerateDefaultTitle(a), GenerateDefaultTitle(b);
    assert |ta| == |a|;
    if i < |a| {
      calc {
        GenerateDefaultTitle(a + [sep] + b)[i];
        { TitleLeftOfSeparator(a, sep, b, i); }
        ta[i];
        (ta + " " + tb)[i];
      }
    } else if i > |a| {
      calc {
        GenerateDefaultTitle(a + [sep] + b)[i];
        { TitleRightOfSeparator(a, sep, b, i - |a| - 1); }
        tb[i - |a| - 1];
        (ta + " " + tb)[i];
      }
    } else {
      calc {
        GenerateDefaultTitle(a + [sep] + b)[i];
        { TitleAtSeparator(a, sep, b); }
        ' ';
        (ta + " " + tb)[i];
      }
    }
  }

  lemma TitleAtSeparator(a: string, sep: char, b: string)
    requires sep == '-' || sep == '_' || sep == ' '
    ensures GenerateDefaultTitle(a + [sep] + b)[|a|] == ' '
  {
    var f := a + [sep] + b;
    assert f[|a|] == sep;
    assert !IsTitleWordChar(sep);
  }

  lemma TitleLeftOfSeparator(a: string, sep: char, b: string, i: nat)
    requires sep == '-' || sep == '_' || sep == ' '
    requires i < |a|
    ensures GenerateDefaultTitle(a + [sep] + b)[i] == GenerateDefaultTitle(a)[i]
  {
    var f := a + [sep] + b;
    assert f[i] == a[i];
    assert i > 0 ==> f[i - 1] == a[i - 1];
    assert StartsTitleWord(f, i) == StartsTitleWord(a, i);
  }

  lemma TitleRightOfSeparator(a: string, sep: char, b: string, j: nat)
    requires sep == '-' || sep == '_' || sep == ' '
    requires j < |b|
    ensures GenerateDefaultTitle(a + [sep] + b)[|a| + 1 + j] == GenerateDefaultTitle(b)[j]
  {
    var f := a + [sep] + b;
    var i := |a| + 1 + j;
    assert f[i] == b[j];
    assert j > 0 ==> f[i - 1] == b[j - 1];
    assert j == 0 ==> f[i - 1] == sep;
    assert StartsTitleWord(f, i) == StartsTitleWord(b, j);
  }

  // ---------------------------------------------------------------------
  // Title, description and date defaulting.

  /** A keyword value JavaScript treats as true: present and non-empty. */
  predicate Truthy(v: Option<string>) {
    v.Some? && v.value != ""
  }

  /** Title and description are filled only when missing or empty: the
      title from `defaultTitle` or the filename, the description from
      `defaultDescription` or the fixed default. Other keys are untouched. */
  function ApplyDefaults(kw: KeywordMap, filename: string, defaultTitle: Option<string>, defaultDescription: Option<string>): (r: KeywordMap)
    ensures Truthy(OM.Get(kw, "title")) ==> OM.Get(r, "title") == OM.Get(kw, "title")
    ensures !Truthy(OM.Get(kw, "title")) ==>
      OM.Get(r, "title") == Some(if Truthy(defaultTitle) then defaultTitle.value else GenerateDefaultTitle(filename))
    ensures Truthy(OM.Get(kw, "description")) ==> OM.Get(r, "description") == OM.Get(kw, "description")
    ensures !Truthy(OM.Get(kw, "description")) ==>
      OM.Get(r, "description") == Some(if Truthy(defaultDescription) then defaultDescription.value else C.DefaultDescription)
    ensures Truthy(OM.Get(r, "description"))
    ensures forall k :: k != "title" && k != "description" ==> OM.Get(r, k) == OM.Get(kw, k)
    ensures OM.KeysUnique(kw) ==> OM.KeysUnique(r)
  {
    var t := if Truthy(OM.Get(kw, "title")) then kw
      else OM.Put(kw, "title", if Truthy(defaultTitle) then defaultTitle.value else GenerateDefaultTitle(filename));
    OM.PutKeepsKeysUnique(kw, "title", if Truthy(defaultTitle) then defaultTitle.value else GenerateDefaultTitle(filename));
    var d := if Truthy(OM.Get(t, "description")) then t
      else OM.Put(t, "description", if Truthy(defaultDescription) then defaultDescription.value else C.DefaultDescription);
    OM.PutKeepsKeysUnique(t, "description", if Truthy(defaultDescription) then defaultDescription.value else C.DefaultDescription);
    d
  }

  /** Date normalisation: a truthy `date` that `parseDate` understands is
      replaced by its ISO form; `parseDate` stands for the time module's
      `parseTime` followed by `formatToISOString`. */
  function NormalizeDate(kw: KeywordMap, parseDate: string -> Option<string>): (r: KeywordMap)
    ensures !Truthy(OM.Get(kw, "date")) ==> r == kw
    ensures Truthy(OM.Get(kw, "date")) && parseDate(OM.Get(kw, "date").value).Some? ==>
      OM.Get(r, "date") == parseDate(OM.Get(kw, "date").value)
    ensures forall k :: k != "date" ==> OM.Get(r, k) == OM.Get(kw, k)
  {
    var d := OM.Get(kw, "date");
    if Truthy(d) then
      match parseDate(d.value)
      case Some(iso) => OM.Put(kw, "date", iso)
      case None => kw
    else kw
  }

  /** The date branch never fires after the line-based extractor, which
      always drops `date`. */
  lemma DateBranchUnreachable(content: string, parseDate: string -> Option<string>)
    ensures NormalizeDate(ExtractOrgKeywords(content), parseDate) == ExtractOrgKeywords(content)
  {
    SkippedKeysAbsent(content);
  }
}
