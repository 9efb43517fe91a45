/** Placeholder markers: a capital-letter prefix followed by a decimal index
    stands for an entry of the block context while the text passes through
    the renderer, and a restore pass replaces every `PREFIX<digits>` by the
    string chosen for that index. */
module Markers {
  import opened Wrappers
  import opened Text
  import opened Scanner
  import C = Constants

  /** Number of leading ASCII digits: what `\d+` consumes. */
  function DigitRun(s: string): (n: nat)
    ensures n <= |s|
    ensures forall k :: 0 <= k < n ==> IsDigit(s[k])
    ensures n < |s| ==> !IsDigit(s[n])
  {
    if |s| == 0 || !IsDigit(s[0]) then 0 else 1 + DigitRun(s[1..])
  }

  lemma DigitRunOf(d: string, t: string)
    requires forall k :: 0 <= k < |d| ==> IsDigit(d[k])
    requires |t| == 0 || !IsDigit(t[0])
    ensures DigitRun(d + t) == |d|
  {
    var s := d + t;
    assert forall k :: 0 <= k < |d| ==> s[k] == d[k];
    assert |t| > 0 ==> s[|d|] == t[0];
  }

  /** The marker for index `k`, as `${PREFIX}${k}` renders it. */
  function Marker(prefix: string, k: nat): string {
    prefix + NatToString(k)
  }

  /** A usable prefix: it does not start with a digit, and no proper suffix
      of it is also a prefix of it, so an occurrence cannot begin inside
      another one. */
  predicate MarkerPrefix(p: string) {
    |p| >= 1 && !IsDigit(p[0]) && forall l :: 1 <= l < |p| ==> p[l..] != p[..|p| - l]
  }

  /** `p` occurs nowhere in `s`. */
  predicate Lacks(s: string, p: string) {
    forall j: nat :: j <= |s| ==> !OccursAt(s, j, p)
  }

  lemma LacksSlice(s: string, a: nat, b: nat, p: string)
    requires a <= b <= |s| && Lacks(s, p)
    ensures Lacks(s[a..b], p)
  {
    forall j: nat | j <= b - a ensures !OccursAt(s[a..b], j, p) {
      if j + |p| <= b - a {
        SliceOfSlice(s, a, b, j, |p|);
        assert !OccursAt(s, a + j, p);
      }
    }
  }

  /** `markdown.replace(new RegExp(PREFIX + '(\\d+)', 'g'), (_, index) =>
      fill(parseInt(index)))`: every prefix followed by at least one digit,
      leftmost first, with the whole digit run as the index. */
  function RestoreMarkers(s: string, prefix: string, fill: nat -> string): string
    decreases |s|
  {
    if |s| == 0 then ""
    else if StartsWith(s, prefix) && DigitRun(s[|prefix|..]) >= 1 then
      var n := |prefix| + DigitRun(s[|prefix|..]);
      assert forall k :: 0 <= k < n - |prefix| ==> s[|prefix|..n][k] == s[|prefix|..][k];
      fill(DigitsValue(s[|prefix|..n])) + RestoreMarkers(s[n..], prefix, fill)
    else [s[0]] + RestoreMarkers(s[1..], prefix, fill)
  }

  /** A marker directly followed by a non-digit is replaced by the string
      for its own index. */
  lemma MarkerStep(prefix: string, k: nat, rest: string, fill: nat -> string)
    requires |rest| == 0 || !IsDigit(rest[0])
    ensures RestoreMarkers(Marker(prefix, k) + rest, prefix, fill) == fill(k) + RestoreMarkers(rest, prefix, fill)
  {
    var d := NatToString(k);
    var s := Marker(prefix, k) + rest;
    MarkerParts(prefix, d, rest);
    DigitRunOf(d, rest);
    DigitsValueOfNatToString(k);
    MarkerUnfold(s, prefix, |d|, fill);
  }

  lemma MarkerParts(prefix: string, d: string, rest: string)
    ensures var s := prefix + d + rest;
      StartsWith(s, prefix) && s[|prefix|..] == d + rest &&
      s[|prefix|..|prefix| + |d|] == d && s[|prefix| + |d|..] == rest
  {
    var s := prefix + d + rest;
    assert s == prefix + (d + rest);
    assert s[..|prefix|] == prefix;
  }

  /** One restore step at a marker whose digits run for `w` characters. */
  lemma MarkerUnfold(s: string, prefix: string, w: nat, fill: nat -> string)
    requires StartsWith(s, prefix) && |s| > 0 && w >= 1 && DigitRun(s[|prefix|..]) == w
    ensures |prefix| + w <= |s|
    ensures RestoreMarkers(s, prefix, fill) ==
      fill(DigitsValue(s[|prefix|..|prefix| + w])) + RestoreMarkers(s[|prefix| + w..], prefix, fill)
  {
  }

  /** Restoring is a single pass: the string put in for a marker is not
      searched again, even when it contains markers itself. */
  lemma SinglePass(prefix: string, k: nat, fill: nat -> string)
    ensures RestoreMarkers(Marker(prefix, k), prefix, fill) == fill(k)
  {
    MarkerStep(prefix, k, "", fill);
    assert Marker(prefix, k) + "" == Marker(prefix, k);
  }

  /** Text without the prefix, followed by text that is empty or starts
      with the prefix, does not itself start with the prefix. */
  lemma NoPrefixAtFront(prefix: string, g: string, rest: string)
    requires MarkerPrefix(prefix) && Lacks(g, prefix) && |g| > 0
    requires |rest| == 0 || StartsWith(rest, prefix)
    ensures !StartsWith(g + rest, prefix)
  {
    var s := g + rest;
    if |prefix| <= |g| {
      assert !OccursAt(g, 0, prefix);
      assert s[..|prefix|] == g[0..|prefix|];
    } else if StartsWith(s, prefix) {
      OverlapShift(prefix, g, rest);
    }
  }

  /** A prefix occurrence straddling the end of `g` while `rest` starts with
      the prefix would make a suffix of the prefix equal to a prefix of it. */
  lemma OverlapShift(prefix: string, g: string, rest: string)
    requires |g| < |prefix| && StartsWith(g + rest, prefix) && StartsWith(rest, prefix)
    ensures prefix[|g|..] == prefix[..|prefix| - |g|]
  {
    var s := g + rest;
    var l := |g|;
    assert prefix[l..] == s[l..|prefix|];
    assert s[l..|prefix|] == rest[..|prefix| - l];
  }

  /** Text without the prefix passes through unchanged, provided what
      follows it is empty or starts with a marker. */
  lemma {:induction false} PlainText(prefix: string, g: string, rest: string, fill: nat -> string)
    requires MarkerPrefix(prefix) && Lacks(g, prefix)
    requires |rest| == 0 || StartsWith(rest, prefix)
    ensures RestoreMarkers(g + rest, prefix, fill) == g + RestoreMarkers(rest, prefix, fill)
    decreases |g|
  {
    if |g| > 0 {
      var s := g + rest;
      var tail := RestoreMarkers(rest, prefix, fill);
      calc {
        RestoreMarkers(s, prefix, fill);
        { NoPrefixAtFront(prefix, g, rest); PlainStep(s, prefix, fill); }
        [s[0]] + RestoreMarkers(s[1..], prefix, fill);
        { assert s[0] == g[0]; assert s[1..] == g[1..] + rest; }
        [g[0]] + RestoreMarkers(g[1..] + rest, prefix, fill);
        { LacksSlice(g, 1, |g|, prefix); assert g[1..|g|] == g[1..];
          PlainText(prefix, g[1..], rest, fill); }
        [g[0]] + (g[1..] + tail);
        { ConsAssoc(g, tail); }
        g + tail;
      }
    } else {
      assert g + rest == rest;
    }
  }

  /** A text not starting with the prefix restores its first character
      as it is. */
  lemma PlainStep(s: string, prefix: string, fill: nat -> string)
    requires |s| > 0 && !StartsWith(s, prefix)
    ensures RestoreMarkers(s, prefix, fill) == [s[0]] + RestoreMarkers(s[1..], prefix, fill)
  {
  }

  lemma ConsAssoc(g: string, tail: string)
    requires |g| > 0
    ensures [g[0]] + (g[1..] + tail) == g + tail
  {
    assert [g[0]] + g[1..] == g;
  }

  /** A text without the prefix is left unchanged by a restore pass. */
  lemma NoMarkerUnchanged(prefix: string, s: string, fill: nat -> string)
    requires MarkerPrefix(prefix) && Lacks(s, prefix)
    ensures RestoreMarkers(s, prefix, fill) == s
  {
    PlainText(prefix, s, "", fill);
    assert s + "" == s;
  }

  /** The markers for indices k0, k0 + 1, ... */
  function MarkerTexts(prefix: string, k0: nat, n: nat): (r: seq<string>)
    ensures |r| == n
  {
    seq(n, j requires 0 <= j => Marker(prefix, k0 + j))
  }

  /** The strings chosen for indices k0, k0 + 1, ... */
  function Fills(fill: nat -> string, k0: nat, n: nat): (r: seq<string>)
    ensures |r| == n
  {
    seq(n, j requires 0 <= j => fill(k0 + j))
  }

  /** No hit is directly followed by a digit, which would be read as part
      of its marker's index. */
  predicate FollowedByNonDigit<P>(s: string, hs: seq<Hit<P>>) {
    forall k :: 0 <= k < |hs| && hs[k].end < |s| ==> !IsDigit(s[hs[k].end])
  }

  /** A text with markers spliced in starts with a non-digit when the text
      at the splice start does. */
  lemma SpliceHead<P>(s: string, i: nat, hs: seq<Hit<P>>, prefix: string, k0: nat)
    requires i <= |s| && Chained(s, i, hs) && MarkerPrefix(prefix)
    requires i < |s| ==> !IsDigit(s[i])
    ensures var r := Splice(s, i, hs, MarkerTexts(prefix, k0, |hs|)); |r| == 0 || !IsDigit(r[0])
  {
    var r := Splice(s, i, hs, MarkerTexts(prefix, k0, |hs|));
    if |hs| > 0 {
      var m := MarkerTexts(prefix, k0, |hs|)[0];
      if hs[0].start == i {
        assert r == s[i..i] + m + Splice(s, hs[0].end, hs[1..], MarkerTexts(prefix, k0, |hs|)[1..]);
        assert m == prefix + NatToString(k0);
        assert r[0] == m[0] == prefix[0];
      } else {
        assert r[0] == s[i..hs[0].start][0] == s[i];
      }
    }
  }

  /** Restoring undoes marker insertion: when the text lacks the prefix and
      no match is directly followed by a digit, restoring the text with
      markers k0, k0 + 1, ... in place of its matches gives the text with
      the chosen strings in their place. */
  lemma {:induction false} RestoreSplice<P>(s: string, i: nat, hs: seq<Hit<P>>, prefix: string, k0: nat, fill: nat -> string)
    requires i <= |s| && Chained(s, i, hs) && MarkerPrefix(prefix)
    requires Lacks(s, prefix) && FollowedByNonDigit(s, hs)
    ensures RestoreMarkers(Splice(s, i, hs, MarkerTexts(prefix, k0, |hs|)), prefix, fill) ==
      Splice(s, i, hs, Fills(fill, k0, |hs|))
    decreases |hs|
  {
    if |hs| == 0 {
      LacksSlice(s, i, |s|, prefix);
      assert s[i..|s|] == s[i..];
      NoMarkerUnchanged(prefix, s[i..], fill);
    } else {
      var h := hs[0];
      var g := s[i..h.start];
      var ms := MarkerTexts(prefix, k0, |hs|);
      var fs := Fills(fill, k0, |hs|);
      var rest := Splice(s, h.end, hs[1..], ms[1..]);
      SplitMarkerTexts(prefix, k0, |hs|);
      SplitFills(fill, k0, |hs|);
      FollowedTail(s, hs);
      RestoreSplice(s, h.end, hs[1..], prefix, k0 + 1, fill);
      SpliceHead(s, h.end, hs[1..], prefix, k0 + 1);
      LacksSlice(s, i, h.start, prefix);
      RestoreOne(prefix, g, k0, rest, fill);
      assert Splice(s, i, hs, ms) == g + ms[0] + rest;
      assert Splice(s, i, hs, fs) == g + fs[0] + Splice(s, h.end, hs[1..], fs[1..]);
    }
  }

  /** One marker after plain text is restored, and the text is kept. */
  lemma RestoreOne(prefix: string, g: string, k: nat, rest: string, fill: nat -> string)
    requires MarkerPrefix(prefix) && Lacks(g, prefix)
    requires |rest| == 0 || !IsDigit(rest[0])
    ensures RestoreMarkers(g + Marker(prefix, k) + rest, prefix, fill) ==
      g + fill(k) + RestoreMarkers(rest, prefix, fill)
  {
    var m := Marker(prefix, k);
    calc {
      RestoreMarkers(g + m + rest, prefix, fill);
      { Assoc(g, m, rest); }
      RestoreMarkers(g + (m + rest), prefix, fill);
      { MarkerThenRest(prefix, k, rest); PlainText(prefix, g, m + rest, fill); }
      g + RestoreMarkers(m + rest, prefix, fill);
      { MarkerStep(prefix, k, rest, fill); }
      g + (fill(k) + RestoreMarkers(rest, prefix, fill));
      { Assoc(g, fill(k), RestoreMarkers(rest, prefix, fill)); }
      g + fill(k) + RestoreMarkers(rest, prefix, fill);
    }
  }

  lemma MarkerThenRest(prefix: string, k: nat, rest: string)
    ensures StartsWith(Marker(prefix, k) + rest, prefix)
  {
    assert (Marker(prefix, k) + rest)[..|prefix|] == prefix;
  }

  lemma SplitMarkerTexts(prefix: string, k0: nat, n: nat)
    requires n >= 1
    ensures MarkerTexts(prefix, k0, n)[0] == Marker(prefix, k0)
    ensures MarkerTexts(prefix, k0, n)[1..] == MarkerTexts(prefix, k0 + 1, n - 1)
  {
  }

  lemma SplitFills(fill: nat -> string, k0: nat, n: nat)
    requires n >= 1
    ensures Fills(fill, k0, n)[0] == fill(k0)
    ensures Fills(fill, k0, n)[1..] == Fills(fill, k0 + 1, n - 1)
  {
  }

  lemma FollowedTail<P>(s: string, hs: seq<Hit<P>>)
    requires |hs| >= 1 && FollowedByNonDigit(s, hs)
    ensures FollowedByNonDigit(s, hs[1..])
    ensures hs[0].end < |s| ==> !IsDigit(s[hs[0].end])
  {
    forall k | 0 <= k < |hs[1..]| && hs[1..][k].end < |s| ensures !IsDigit(s[hs[1..][k].end]) {
      assert hs[1..][k] == hs[k + 1];
    }
  }

  lemma HtmlMarkerPrefix()
    ensures MarkerPrefix(C.HtmlMarker)
  {
    var p := C.HtmlMarker;
    forall l | 1 <= l < |p| ensures p[l..] != p[..|p| - l] {
      assert p[l..][0] == p[l] != p[0] == p[..|p| - l][0];
    }
  }

  lemma CodeBlockMarkerPrefix()
    ensures MarkerPrefix(C.CodeBlockMarker)
  {
    var p := C.CodeBlockMarker;
    forall l | 1 <= l < |p| ensures p[l..] != p[..|p| - l] {
      assert p[l..][0] == p[l] && p[..|p| - l][0] == p[0];
      if l == 7 {
        assert p[l..][1] == p[8] != p[1] == p[..|p| - l][1];
      }
    }
  }

  lemma ExampleBlockMarkerPrefix()
    ensures MarkerPrefix(C.ExampleBlockMarker)
  {
    var p := C.ExampleBlockMarker;
    forall l | 1 <= l < |p| ensures p[l..] != p[..|p| - l] {
      assert p[l..][0] == p[l] && p[..|p| - l][0] == p[0];
      if l == 6 || l == 16 {
        assert p[l..][1] == p[l + 1] != p[1] == p[..|p| - l][1];
      }
    }
  }

  lemma CalloutMarkerPrefix()
    ensures MarkerPrefix(C.CalloutMarker)
  {
    var p := C.CalloutMarker;
    forall l | 1 <= l < |p| ensures p[l..] != p[..|p| - l] {
      assert p[l..][0] == p[l] && p[..|p| - l][0] == p[0];
    }
  }

  /** The indices a restore pass reads, in order: the digit run after each
      occurrence of the prefix that it replaces. */
  function MarkerIndices(s: string, prefix: string): seq<nat>
    decreases |s|
  {
    if |s| == 0 then []
    else if StartsWith(s, prefix) && DigitRun(s[|prefix|..]) >= 1 then
      var n := |prefix| + DigitRun(s[|prefix|..]);
      assert forall k :: 0 <= k < n - |prefix| ==> s[|prefix|..n][k] == s[|prefix|..][k];
      [DigitsValue(s[|prefix|..n])] + MarkerIndices(s[n..], prefix)
    else MarkerIndices(s[1..], prefix)
  }

  /** A lone marker is read as its own index. */
  lemma LoneMarkerIndex(prefix: string, k: nat)
    ensures MarkerIndices(Marker(prefix, k), prefix) == [k]
  {
    var d := NatToString(k);
    var s := Marker(prefix, k);
    assert s[|prefix|..] == d + "";
    DigitRunOf(d, "");
    assert s[|prefix|..|s|] == d;
    DigitsValueOfNatToString(k);
  }
}
