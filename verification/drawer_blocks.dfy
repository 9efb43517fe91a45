/** Drawers (`:name:` ... `:end:`): a drawer whose name is not one of Org's
    reserved drawers becomes a collapsible accordion holding the drawer's
    lines as they are; reserved drawers are kept as written. Nothing is
    stored in the block context and the restore pass leaves the text as it
    is. */
module DrawerBlocks {
  import opened Wrappers
  import opened Text
  import opened Scanner
  import K = Keywords

  const EndLine: string := ":end:"

  /** Drawer names kept as written, compared in lower case. */
  const ReservedDrawers: set<string> := {"properties", "logbook", "clock", "effort"}

  datatype Drawer = Drawer(name: string, body: string, original: string)

  predicate Reserved(d: Drawer) {
    Lower(d.name) in ReservedDrawers
  }

  /** A line starting at `q` begins with `:end:`, ignoring ASCII case. */
  predicate EndLineAt(s: string, q: nat) {
    1 <= q && q - 1 < |s| && s[q - 1] == '\n' && OccursAtCI(s, q, EndLine)
  }

  /** `q` is the first line at or after `p` that begins with `:end:`. */
  predicate FirstEndLine(s: string, p: nat, q: nat) {
    p <= q && EndLineAt(s, q) && forall j :: p <= j < q ==> !EndLineAt(s, j)
  }

  /** `s` opens with a header line `:name:` whose name has `w` word characters. */
  predicate HeaderLine(s: string, w: nat) {
    1 <= w && w + 3 <= |s| && s[0] == ':' && AllWordChars(s[1..1 + w]) && s[1 + w] == ':' && s[2 + w] == '\n'
  }

  /** The first line at or after `p` that begins with `:end:`. */
  function CloseLine(s: string, p: nat): (r: Option<nat>)
    requires p <= |s|
    ensures r.Some? ==> p <= r.value && EndLineAt(s, r.value)
    ensures forall q :: p <= q <= |s| && (r.None? || q < r.value) ==> !EndLineAt(s, q)
    decreases |s| - p
  {
    if EndLineAt(s, p) then Some(p)
    else if p == |s| then None
    else CloseLine(s, p + 1)
  }

  /** A drawer starting at `i`: at a line start, `:name:` with a word name
      other than `end` alone on its line, then lines up to the first line
      that begins with `:end:`; the match runs through that `:end:`. The
      body is the lines in between, without the last line break. */
  function DrawerAt(s: string, i: nat): (r: Option<(nat, Drawer)>)
    ensures r.Some? ==> i < r.value.0 && IsSlice(r.value.1.original, s, i, r.value.0)
    ensures r.Some? ==> |r.value.1.name| >= 1 && AllWordChars(r.value.1.name) && Lower(r.value.1.name) != "end"
  {
    match HeaderAt(s, i)
    case None => None
    case Some(w) =>
      var name := s[i + 1..i + 1 + w];
      if Lower(name) == "end" then None
      else DrawerFrom(s, i, i + w + 3, name)
  }

  /** The length of the name in a header line `:name:` at line start `i`. */
  function HeaderAt(s: string, i: nat): (r: Option<nat>)
    ensures r.Some? ==> r.value >= 1 && i + r.value + 3 <= |s| && forall k :: i + 1 <= k < i + 1 + r.value ==> IsWordChar(s[k])
  {
    if !(i < |s| && (i == 0 || s[i - 1] == '\n') && s[i] == ':') then None
    else
      var w := WordRun(s[i + 1..]);
      if w == 0 || i + w + 3 > |s| || s[i + 1 + w] != ':' || s[i + 2 + w] != '\n' then None
      else
        assert s[i + 1..i + 1 + w] == s[i + 1..][..w];
        Some(w)
  }

  /** The rest of a drawer whose header line `:name:` spans `[i, b)`. */
  function DrawerFrom(s: string, i: nat, b: nat, name: string): (r: Option<(nat, Drawer)>)
    requires i < b <= |s|
    ensures r.Some? ==> b < r.value.0 && IsSlice(r.value.1.original, s, i, r.value.0) && r.value.1.name == name
  {
    match CloseLine(s, b)
    case None => None
    case Some(q) =>
      Some((q + |EndLine|, Drawer(name, if q == b then "" else s[b..q - 1], s[i..q + |EndLine|])))
  }

  /** The independent description of a drawer at the start of `s`: a
      header line `:name:` holding a word name other than `end`, and the
      first line at or after the body start that begins with `:end:`. */
  lemma DrawerShape(s: string, w: nat, q: nat)
    requires HeaderLine(s, w) && Lower(s[1..1 + w]) != "end"
    requires FirstEndLine(s, w + 3, q)
    ensures DrawerAt(s, 0) ==
      Some((q + |EndLine|, Drawer(s[1..1 + w], if q == w + 3 then "" else s[w + 3..q - 1], s[..q + |EndLine|])))
  {
    calc {
      DrawerAt(s, 0);
      { DrawerHeader(s, w); }
      DrawerFrom(s, 0, w + 3, s[1..1 + w]);
      { CloseLineFirst(s, w + 3, q); DrawerFromClose(s, w + 3, s[1..1 + w], q); }
      Some((q + |EndLine|, Drawer(s[1..1 + w], if q == w + 3 then "" else s[w + 3..q - 1], s[..q + |EndLine|])));
    }
  }

  /** A closing line at `q` completes the drawer whose header ends at `b`. */
  lemma DrawerFromClose(s: string, b: nat, name: string, q: nat)
    requires 0 < b <= q && q + |EndLine| <= |s| && CloseLine(s, b) == Some(q)
    ensures DrawerFrom(s, 0, b, name) ==
      Some((q + |EndLine|, Drawer(name, if q == b then "" else s[b..q - 1], s[..q + |EndLine|])))
  {
    assert s[0..q + |EndLine|] == s[..q + |EndLine|];
  }

  /** A well-formed header line leaves the drawer to its closing line. */
  lemma DrawerHeader(s: string, w: nat)
    requires HeaderLine(s, w)
    requires Lower(s[1..1 + w]) != "end"
    ensures DrawerAt(s, 0) == DrawerFrom(s, 0, w + 3, s[1..1 + w])
  {
    HeaderAtStart(s, w);
    assert s[0 + 1..0 + 1 + w] == s[1..1 + w];
  }

  lemma HeaderAtStart(s: string, w: nat)
    requires HeaderLine(s, w)
    ensures HeaderAt(s, 0) == Some(w)
  {
    assert s[1..] == s[1..1 + w] + s[1 + w..];
    WordRunOf(s[1..1 + w], s[1 + w..]);
    assert WordRun(s[0 + 1..]) == w;
  }

  lemma {:induction false} CloseLineFirst(s: string, p: nat, q: nat)
    requires FirstEndLine(s, p, q)
    ensures CloseLine(s, p) == Some(q)
    decreases q - p
  {
    if p < q {
      CloseLineFirst(s, p + 1, q);
    }
  }

  // ---------------------------------------------------------------------
  // Titles.

  function UnderscoresToSpaces(s: string): (r: string)
    ensures |r| == |s|
    ensures forall i :: 0 <= i < |s| ==> r[i] == (if s[i] == '_' then ' ' else s[i])
  {
    if |s| == 0 then "" else [if s[0] == '_' then ' ' else s[0]] + UnderscoresToSpaces(s[1..])
  }

  /** A space between a lower-case letter and the capital that follows it. */
  function SpaceCamel(s: string): (r: string)
    decreases |s|
  {
    if |s| <= 1 then s
    else [s[0]] + (if IsLower(s[0]) && IsUpper(s[1]) then " " else "") + SpaceCamel(s[1..])
  }

  /** The accordion title: underscores become spaces, camel-case humps are
      split, and every word starts with a capital. */
  function DrawerTitle(name: string): string {
    K.CapitalizeWordStarts(SpaceCamel(UnderscoresToSpaces(name)), false)
  }

  // ---------------------------------------------------------------------
  // Processing.

  function Accordion(i: nat, title: string, body: string): string {
    "<Accordion type=\"single\" collapsible className=\"w-full\">\n" +
    "  <AccordionItem value=\"drawer-" + NatToString(i) + "\">\n" +
    "    <AccordionTrigger>" + title + "</AccordionTrigger>\n" +
    "    <AccordionContent>\n" + body + "\n    </AccordionContent>\n" +
    "  </AccordionItem>\n</Accordion>"
  }

  /** A drawer that is turned into an accordion. */
  predicate Converts(d: Drawer) {
    !Reserved(d)
  }

  /** What one drawer becomes when `n` drawers before it were converted. */
  function Replacement(d: Drawer, n: nat): string {
    if Reserved(d) then d.original else Accordion(n, DrawerTitle(d.name), d.body)
  }

  /** Replacements for the hits: a reserved drawer is put back as written,
      the others become accordions numbered in order. */
  function DrawerReps(hs: seq<Hit<Drawer>>, k: nat): (r: seq<string>)
    ensures |r| == |hs|
  {
    var ns := Numbers(hs, Converts, k);
    seq(|hs|, j requires 0 <= j < |hs| => Replacement(hs[j].data, ns[j]))
  }

  /** `processDrawerBlocks`. */
  function ProcessDrawers(s: string): string {
    Splice(s, 0, Hits(s, 0, DrawerAt), DrawerReps(Hits(s, 0, DrawerAt), 0))
  }

  /** The j-th replacement: a reserved drawer as written, otherwise the
      accordion numbered by how many drawers before it were converted. */
  lemma DrawerNumbering(hs: seq<Hit<Drawer>>, k: nat, j: nat)
    requires j < |hs|
    ensures DrawerReps(hs, k)[j] ==
      if Reserved(hs[j].data) then hs[j].data.original
      else Accordion(k + Counted(hs[..j], Converts), DrawerTitle(hs[j].data.name), hs[j].data.body)
  {
    NumbersCount(hs, Converts, k, j);
  }

  /** Every hit is a drawer recorded as its own text. */
  predicate OwnText(s: string, hs: seq<Hit<Drawer>>) {
    forall j :: 0 <= j < |hs| ==> hs[j].start <= hs[j].end <= |s| && hs[j].data.original == s[hs[j].start..hs[j].end]
  }

  lemma HitsOwnText(s: string)
    ensures OwnText(s, Hits(s, 0, DrawerAt))
  {
    var hs := Hits(s, 0, DrawerAt);
    forall j | 0 <= j < |hs|
      ensures hs[j].start <= hs[j].end <= |s| && hs[j].data.original == s[hs[j].start..hs[j].end]
    {
      HitIsMatch(s, 0, DrawerAt, j);
    }
  }

  lemma ReservedAreOriginals(s: string, i: nat, hs: seq<Hit<Drawer>>, k: nat)
    requires i <= |s| && Chained(s, i, hs) && OwnText(s, hs)
    requires forall j :: 0 <= j < |hs| ==> Reserved(hs[j].data)
    ensures DrawerReps(hs, k) == Originals(s, i, hs)
  {
    var r := DrawerReps(hs, k);
    var o := Originals(s, i, hs);
    forall j | 0 <= j < |hs| ensures r[j] == o[j] {
      OriginalAt(s, i, hs, j);
    }
  }

  /** A text whose drawers are all reserved comes out unchanged. */
  lemma OnlyReservedUnchanged(s: string)
    requires forall j :: 0 <= j < |Hits(s, 0, DrawerAt)| ==> Reserved(Hits(s, 0, DrawerAt)[j].data)
    ensures ProcessDrawers(s) == s
  {
    var hs := Hits(s, 0, DrawerAt);
    HitsOwnText(s);
    ReservedAreOriginals(s, 0, hs, 0);
    SpliceOriginals(s, 0, hs);
  }

  /** Around an underscore the title is built word by word: the two sides
      are titled on their own and joined by a space. */
  lemma TitleSplitsAtUnderscore(a: string, b: string)
    ensures DrawerTitle(a + "_" + b) == DrawerTitle(a) + " " + DrawerTitle(b)
  {
    var ua := UnderscoresToSpaces(a);
    var ub := UnderscoresToSpaces(b);
    assert UnderscoresToSpaces(a + "_" + b) == ua + " " + ub;
    SpaceCamelAtSpace(ua, ub);
    CapitalizeAtSpace(SpaceCamel(ua), SpaceCamel(ub), false);
  }

  lemma {:induction false} SpaceCamelAtSpace(x: string, y: string)
    ensures SpaceCamel(x + " " + y) == SpaceCamel(x) + " " + SpaceCamel(y)
    decreases |x|
  {
    if |x| == 0 {
      assert x + " " + y == " " + y;
      SpaceCamelAfterBlank(y);
    } else if |x| == 1 {
      var s := x + " " + y;
      assert s == x + (" " + y);
      SpaceCamelSingle(x[0], " " + y);
      SpaceCamelAfterBlank(y);
      assert x == [x[0]];
    } else {
      var s := x + " " + y;
      var t := x[1..] + " " + y;
      assert s[1..] == t;
      SpaceCamelStep(x, s);
      SpaceCamelAtSpace(x[1..], y);
      var sep := if IsLower(x[0]) && IsUpper(x[1]) then " " else "";
      calc {
        SpaceCamel(s);
        [x[0]] + sep + SpaceCamel(t);
        [x[0]] + sep + (SpaceCamel(x[1..]) + " " + SpaceCamel(y));
        ([x[0]] + sep + SpaceCamel(x[1..])) + " " + SpaceCamel(y);
        SpaceCamel(x) + " " + SpaceCamel(y);
      }
    }
  }

  /** A single character before a blank stays on its own. */
  lemma SpaceCamelSingle(c: char, t: string)
    requires |t| >= 1 && t[0] == ' '
    ensures SpaceCamel([c] + t) == [c] + SpaceCamel(t)
  {
    var s := [c] + t;
    assert s[0] == c && s[1] == ' ' && s[1..] == t;
  }

  /** A leading blank never opens a hump. */
  lemma SpaceCamelAfterBlank(y: string)
    ensures SpaceCamel(" " + y) == " " + SpaceCamel(y)
  {
    var s := " " + y;
    if |y| > 0 {
      assert s[0] == ' ' && s[1..] == y;
    } else {
      assert s == " ";
    }
  }

  /** Two texts with the same first two characters take the same first step. */
  lemma SpaceCamelStep(x: string, s: string)
    requires |x| >= 2 && |s| >= 2 && x[0] == s[0] && x[1] == s[1]
    ensures var sep := if IsLower(x[0]) && IsUpper(x[1]) then " " else "";
      SpaceCamel(x) == [x[0]] + sep + SpaceCamel(x[1..]) && SpaceCamel(s) == [x[0]] + sep + SpaceCamel(s[1..])
  {
  }

  lemma {:induction false} CapitalizeAtSpace(x: string, y: string, afterWord: bool)
    ensures K.CapitalizeWordStarts(x + " " + y, afterWord) ==
      K.CapitalizeWordStarts(x, afterWord) + " " + K.CapitalizeWordStarts(y, false)
    decreases |x|
  {
    if |x| == 0 {
      assert x + " " + y == " " + y && (" " + y)[1..] == y;
    } else {
      assert (x + " " + y)[1..] == x[1..] + " " + y;
      CapitalizeAtSpace(x[1..], y, IsWordChar(x[0]));
    }
  }
}
