/** Delimited regions `#+begin_NAME … #+end_NAME` as the converter finds them
    with `/#\+begin_NAME\s*\n([\s\S]*?)#\+end_NAME/g`: the opening tag, a
    run of whitespace that must contain a line break, a lazily matched body
    and the first closing tag after it. Case matters (the patterns carry no
    `i` flag). Comment regions are dropped from the text here. */
module Regions {
  import opened Wrappers
  import opened Text
  import opened Scanner

  const BeginPrefix: string := "#+begin_"
  const EndPrefix: string := "#+end_"
  const CommentName: string := "comment"

  /** `\s*\n` starting at `p` can stop at `b`: everything in between is
      whitespace and the last character is a line feed. */
  predicate Admissible(s: string, p: nat, b: nat) {
    p < b <= |s| && s[b - 1] == '\n' && forall j :: p <= j < b ==> IsSpace(s[j])
  }

  /** Where `\s*\n` stops when tried at `p`: the greedy `\s*` takes the
      whole whitespace run and gives characters back until a line feed can
      follow, so the match ends after the last line feed of the run. */
  function BodyStart(s: string, p: nat): (r: Option<nat>)
    ensures r.Some? ==> p < r.value <= |s|
    decreases |s| - p
  {
    if p < |s| && IsSpace(s[p]) then
      match BodyStart(s, p + 1)
      case Some(b) => Some(b)
      case None => if s[p] == '\n' then Some(p + 1) else None
    else None
  }

  /** The stop chosen is admissible and no admissible stop lies beyond it;
      there is none exactly when no stop is admissible. */
  lemma {:induction false} BodyStartSpec(s: string, p: nat)
    ensures BodyStart(s, p).Some? ==> Admissible(s, p, BodyStart(s, p).value)
    ensures BodyStart(s, p).Some? ==> forall b: nat :: Admissible(s, p, b) ==> b <= BodyStart(s, p).value
    ensures BodyStart(s, p).None? ==> forall b: nat :: !Admissible(s, p, b)
    decreases |s| - p
  {
    if p < |s| && IsSpace(s[p]) {
      BodyStartSpec(s, p + 1);
      forall b: nat | Admissible(s, p, b) && b != p + 1 ensures Admissible(s, p + 1, b) {
      }
    }
  }

  /** The pattern for `name` tried at `i`: where the match ends and the body. */
  function RegionAt(s: string, i: nat, name: string): (r: Option<(nat, string)>)
    ensures r.Some? ==> i < r.value.0 <= |s|
  {
    var close := EndPrefix + name;
    if !OccursAt(s, i, BeginPrefix + name) then None
    else
      match BodyStart(s, i + |BeginPrefix + name|)
      case None => None
      case Some(b) =>
        match IndexOfFrom(s, close, b)
        case None => None
        case Some(q) => Some((q + |close|, s[b..q]))
  }

  /** A match of the pattern with its body in [b, q): the opening tag at
      `i`, the last admissible stop of `\s*\n` at `b`, and the first closing
      tag at or after `b` at `q`. */
  ghost predicate RegionMatch(s: string, i: nat, name: string, b: nat, q: nat) {
    var p := i + |BeginPrefix + name|;
    OccursAt(s, i, BeginPrefix + name) &&
    Admissible(s, p, b) && (forall b1: nat :: Admissible(s, p, b1) ==> b1 <= b) &&
    b <= q && OccursAt(s, q, EndPrefix + name) &&
    (forall j :: b <= j < q ==> !OccursAt(s, j, EndPrefix + name))
  }

  /** The matcher finds exactly the matches `RegionMatch` describes. */
  lemma RegionAtSpec(s: string, i: nat, name: string)
    ensures forall b: nat, q: nat :: RegionMatch(s, i, name, b, q) ==>
      RegionAt(s, i, name) == Some((q + |EndPrefix + name|, s[b..q]))
    ensures RegionAt(s, i, name).Some? ==>
      (exists b: nat, q: nat :: RegionMatch(s, i, name, b, q) &&
        RegionAt(s, i, name) == Some((q + |EndPrefix + name|, s[b..q])))
  {
    var p := i + |BeginPrefix + name|;
    BodyStartSpec(s, p);
    if OccursAt(s, i, BeginPrefix + name) && BodyStart(s, p).Some? {
      var b := BodyStart(s, p).value;
      if IndexOfFrom(s, EndPrefix + name, b).Some? {
        var q := IndexOfFrom(s, EndPrefix + name, b).value;
        assert RegionMatch(s, i, name, b, q);
      }
    }
  }

  /** The body stops at the first closing tag, so it holds none. */
  lemma BodyLacksClose(s: string, i: nat, name: string, b: nat, q: nat)
    requires RegionMatch(s, i, name, b, q)
    ensures forall j: nat :: j <= q - b ==> !OccursAt(s[b..q], j, EndPrefix + name)
  {
    var close := EndPrefix + name;
    forall j: nat | j <= q - b && OccursAt(s[b..q], j, close) ensures false {
      SliceOfSlice(s, b, q, j, |close|);
      assert OccursAt(s, b + j, close);
    }
  }

  /** The opening tag must be followed by a line break inside whitespace:
      `#+begin_NAME` directly followed by other text does not match. */
  lemma NoLineBreakNoRegion(s: string, i: nat, name: string)
    requires OccursAt(s, i, BeginPrefix + name)
    requires var p := i + |BeginPrefix + name|; p < |s| && !IsSpace(s[p])
    ensures RegionAt(s, i, name).None?
  {
  }

  function CommentAt(s: string, i: nat): Option<(nat, string)> {
    RegionAt(s, i, CommentName)
  }

  /** Comment blocks are replaced by nothing. */
  function StripComments(s: string): (r: string)
    ensures var hs := Hits(s, 0, CommentAt);
      |r| + Covered(hs) == |s|
  {
    var hs := Hits(s, 0, CommentAt);
    SpliceEmptyLength(s, 0, hs);
    Splice(s, 0, hs, Blanks(|hs|))
  }

  function Blanks(n: nat): (r: seq<string>)
    ensures |r| == n && forall j :: 0 <= j < n ==> r[j] == ""
  {
    seq(n, _ => "")
  }

  /** Total length of the hits. */
  function Covered<P>(hs: seq<Hit<P>>): int {
    if |hs| == 0 then 0 else hs[0].end - hs[0].start + Covered(hs[1..])
  }

  lemma {:induction false} SpliceEmptyLength<P>(s: string, i: nat, hs: seq<Hit<P>>)
    requires i <= |s| && Chained(s, i, hs)
    ensures |Splice(s, i, hs, Blanks(|hs|))| + Covered(hs) == |s| - i
    decreases |hs|
  {
    if |hs| > 0 {
      SpliceEmptyLength(s, hs[0].end, hs[1..]);
      assert Blanks(|hs|)[1..] == Blanks(|hs| - 1);
    }
  }

  /** A text without a comment opening tag is left as it is. */
  lemma CommentFreeUnchanged(s: string)
    requires forall j :: 0 <= j <= |s| ==> !OccursAt(s, j, BeginPrefix + CommentName)
    ensures StripComments(s) == s
  {
    var hs := Hits(s, 0, CommentAt);
    NoMatchNoHits(s, 0, CommentAt);
    assert s[0..] == s;
  }
}
