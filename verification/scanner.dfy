/** Global `String.prototype.replace` with a regular expression and a
    callback: the pattern is tried at each position from left to right, a
    match is replaced by a string computed from it, and the search resumes
    where that match ended. The pattern itself is a `Matcher`, which says
    whether a match starts at a given position, where it ends, and what it
    captured; every pattern of this code base matches at least one
    character, so only non-empty matches are considered. */
module Scanner {
  import opened Wrappers

  /** One match: the span [start, end) of the searched text and its captures. */
  datatype Hit<P> = Hit(start: nat, end: nat, data: P)

  type Matcher<P> = (string, nat) -> Option<(nat, P)>

  /** The pattern has a non-empty match starting at `i`. */
  predicate MatchesAt<P>(s: string, i: nat, at: Matcher<P>) {
    at(s, i).Some? && i < at(s, i).value.0 <= |s|
  }

  /** Hits lie in order inside [i, |s|] and do not overlap. */
  predicate Chained<P>(s: string, i: nat, hs: seq<Hit<P>>)
    decreases |hs|
  {
    |hs| == 0 || (i <= hs[0].start < hs[0].end <= |s| && Chained(s, hs[0].end, hs[1..]))
  }

  /** All matches from `i` on, leftmost first, each search resuming at the
      end of the previous match. */
  function Hits<P>(s: string, i: nat, at: Matcher<P>): (hs: seq<Hit<P>>)
    requires i <= |s|
    ensures Chained(s, i, hs)
    decreases |s| - i
  {
    if i == |s| then []
    else if MatchesAt(s, i, at) then
      var (e, d) := at(s, i).value;
      [Hit(i, e, d)] + Hits(s, e, at)
    else Hits(s, i + 1, at)
  }

  /** The independent description of a leftmost, non-overlapping scan: no
      match starts before the first hit, each hit is the match the pattern
      reports at its start, and the rest is again such a scan. */
  predicate Scanned<P(==)>(s: string, i: nat, hs: seq<Hit<P>>, at: Matcher<P>)
    decreases |hs|
  {
    if |hs| == 0 then forall j :: i <= j < |s| ==> !MatchesAt(s, j, at)
    else
      var h := hs[0];
      i <= h.start && MatchesAt(s, h.start, at) && at(s, h.start).value == (h.end, h.data) &&
      (forall j :: i <= j < h.start ==> !MatchesAt(s, j, at)) &&
      Scanned(s, h.end, hs[1..], at)
  }

  /** The scan finds exactly the leftmost non-overlapping matches. */
  lemma {:induction false} HitsAreScanned<P>(s: string, i: nat, at: Matcher<P>)
    requires i <= |s|
    ensures Scanned(s, i, Hits(s, i, at), at)
    decreases |s| - i
  {
    if i < |s| {
      if MatchesAt(s, i, at) {
        HitsAreScanned(s, at(s, i).value.0, at);
      } else {
        HitsAreScanned(s, i + 1, at);
      }
    }
  }

  /** ... and nothing else: a scan is determined by the text and the pattern. */
  lemma {:induction false} ScannedIsHits<P>(s: string, i: nat, hs: seq<Hit<P>>, at: Matcher<P>)
    requires i <= |s|
    requires Scanned(s, i, hs, at)
    ensures hs == Hits(s, i, at)
    decreases |s| - i
  {
    if i < |s| {
      if MatchesAt(s, i, at) {
        var h := hs[0];
        assert h.start == i;
        ScannedIsHits(s, h.end, hs[1..], at);
        assert hs == [h] + hs[1..];
      } else if |hs| > 0 && hs[0].start == i {
      } else {
        ScannedIsHits(s, i + 1, hs, at);
      }
    }
  }

  /** A text in which the pattern matches nowhere has no hits. */
  lemma {:induction false} NoMatchNoHits<P>(s: string, i: nat, at: Matcher<P>)
    requires i <= |s|
    requires forall j :: i <= j < |s| ==> !MatchesAt(s, j, at)
    ensures Hits(s, i, at) == []
    decreases |s| - i
  {
    if i < |s| {
      NoMatchNoHits(s, i + 1, at);
    }
  }

  /** Every hit is the match the pattern reports at its start. */
  lemma {:induction false} HitIsMatch<P>(s: string, i: nat, at: Matcher<P>, k: nat)
    requires i <= |s| && k < |Hits(s, i, at)|
    ensures var h := Hits(s, i, at)[k]; MatchesAt(s, h.start, at) && at(s, h.start).value == (h.end, h.data)
    decreases |s| - i
  {
    if MatchesAt(s, i, at) {
      if k > 0 {
        HitIsMatch(s, at(s, i).value.0, at, k - 1);
      }
    } else {
      HitIsMatch(s, i + 1, at, k);
    }
  }

  /** The text from `i` with the k-th hit replaced by `reps[k]`. */
  function Splice<P>(s: string, i: nat, hs: seq<Hit<P>>, reps: seq<string>): string
    requires i <= |s| && Chained(s, i, hs) && |reps| == |hs|
    decreases |hs|
  {
    if |hs| == 0 then s[i..]
    else s[i..hs[0].start] + reps[0] + Splice(s, hs[0].end, hs[1..], reps[1..])
  }

  /** The matched text of each hit. */
  function Originals<P>(s: string, i: nat, hs: seq<Hit<P>>): (r: seq<string>)
    requires Chained(s, i, hs)
    ensures |r| == |hs|
    decreases |hs|
  {
    if |hs| == 0 then [] else [s[hs[0].start..hs[0].end]] + Originals(s, hs[0].end, hs[1..])
  }

  lemma {:induction false} OriginalAt<P>(s: string, i: nat, hs: seq<Hit<P>>, j: nat)
    requires Chained(s, i, hs) && j < |hs|
    ensures hs[j].start <= hs[j].end <= |s| && Originals(s, i, hs)[j] == s[hs[j].start..hs[j].end]
    decreases j
  {
    if j > 0 {
      OriginalAt(s, hs[0].end, hs[1..], j - 1);
      assert hs[1..][j - 1] == hs[j];
    }
  }

  /** Putting every match back reconstructs the text: a replace pass
      changes nothing outside its matches. */
  lemma {:induction false} SpliceOriginals<P>(s: string, i: nat, hs: seq<Hit<P>>)
    requires i <= |s| && Chained(s, i, hs)
    ensures Splice(s, i, hs, Originals(s, i, hs)) == s[i..]
    decreases |hs|
  {
    if |hs| > 0 {
      var h := hs[0];
      SpliceOriginals(s, h.end, hs[1..]);
      assert Originals(s, i, hs)[1..] == Originals(s, h.end, hs[1..]);
      assert s[i..h.start] + s[h.start..h.end] + s[h.end..] == s[i..];
    }
  }

  /** The number each hit gets when only the hits `counts` selects use up a
      number, counting from `k` (a counter bumped after each such hit). */
  function Numbers<P>(hs: seq<Hit<P>>, counts: P -> bool, k: nat): (r: seq<nat>)
    ensures |r| == |hs|
  {
    if |hs| == 0 then []
    else [k] + Numbers(hs[1..], counts, if counts(hs[0].data) then k + 1 else k)
  }

  /** How many of the hits `counts` selects. */
  function Counted<P>(hs: seq<Hit<P>>, counts: P -> bool): nat {
    if |hs| == 0 then 0 else (if counts(hs[0].data) then 1 else 0) + Counted(hs[1..], counts)
  }

  /** The j-th number is `k` plus the number of selected hits before it. */
  lemma {:induction false} NumbersCount<P>(hs: seq<Hit<P>>, counts: P -> bool, k: nat, j: nat)
    requires j < |hs|
    ensures Numbers(hs, counts, k)[j] == k + Counted(hs[..j], counts)
    decreases j
  {
    if j > 0 {
      var k1 := if counts(hs[0].data) then k + 1 else k;
      NumbersCount(hs[1..], counts, k1, j - 1);
      assert Numbers(hs, counts, k)[j] == Numbers(hs[1..], counts, k1)[j - 1];
      assert hs[..j][1..] == hs[1..][..j - 1];
    } else {
      assert hs[..0] == [];
    }
  }
}
