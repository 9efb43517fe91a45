/** Character classes and string operations with the meaning the JavaScript
    source relies on: `\w`, `\s`, line terminators, `trim`, `split`, `join`,
    first-occurrence `replace` with a string pattern, and decimal rendering.
    Characters are Unicode scalar values; case mapping is ASCII-only, which
    is all that `\w`-matched names need. */
module Text {
  import opened Wrappers

  /** JavaScript `\w`: ASCII letters, digits and underscore. */
  predicate IsWordChar(c: char) {
    ('a' <= c <= 'z') || ('A' <= c <= 'Z') || ('0' <= c <= '9') || c == '_'
  }

  predicate IsDigit(c: char) {
    '0' <= c <= '9'
  }

  predicate IsUpper(c: char) {
    'A' <= c <= 'Z'
  }

  predicate IsLower(c: char) {
    'a' <= c <= 'z'
  }

  /** Lower-case hexadecimal digit, the class `[a-f0-9]`. */
  predicate IsLowerHex(c: char) {
    ('0' <= c <= '9') || ('a' <= c <= 'f')
  }

  /** JavaScript LineTerminator: what `.` refuses and where multiline `^`/`$` hold. */
  predicate IsLineTerminator(c: char) {
    c == '\n' || c == '\r' || c == '\U{2028}' || c == '\U{2029}'
  }

  /** JavaScript `\s` (WhiteSpace and LineTerminator), also what `trim` removes. */
  predicate IsSpace(c: char) {
    || c == '\t' || c == '\n' || c == '\U{000B}' || c == '\U{000C}' || c == '\r' || c == ' '
    || c == '\U{00A0}' || c == '\U{1680}' || ('\U{2000}' <= c <= '\U{200A}')
    || c == '\U{2028}' || c == '\U{2029}' || c == '\U{202F}' || c == '\U{205F}'
    || c == '\U{3000}' || c == '\U{FEFF}'
  }

  lemma LineTerminatorIsSpace(c: char)
    ensures IsLineTerminator(c) ==> IsSpace(c)
  {
  }

  function ToLowerChar(c: char): (r: char)
    ensures IsUpper(c) ==> IsLower(r)
    ensures !IsUpper(c) ==> r == c
  {
    if IsUpper(c) then (c as int + 32) as char else c
  }

  function ToUpperChar(c: char): (r: char)
    ensures IsLower(c) ==> IsUpper(r)
    ensures !IsLower(c) ==> r == c
  {
    if IsLower(c) then (c as int - 32) as char else c
  }

  /** `toLowerCase` restricted to ASCII letters. */
  function Lower(s: string): (r: string)
    ensures |r| == |s|
    ensures forall i :: 0 <= i < |s| ==> r[i] == ToLowerChar(s[i])
  {
    if |s| == 0 then "" else [ToLowerChar(s[0])] + Lower(s[1..])
  }

  /** `toUpperCase` restricted to ASCII letters. */
  function Upper(s: string): (r: string)
    ensures |r| == |s|
    ensures forall i :: 0 <= i < |s| ==> r[i] == ToUpperChar(s[i])
  {
    if |s| == 0 then "" else [ToUpperChar(s[0])] + Upper(s[1..])
  }

  predicate AllWordChars(s: string) {
    forall i :: 0 <= i < |s| ==> IsWordChar(s[i])
  }

  predicate NoLineTerminator(s: string) {
    forall i :: 0 <= i < |s| ==> !IsLineTerminator(s[i])
  }

  predicate AllSpaces(s: string) {
    forall i :: 0 <= i < |s| ==> IsSpace(s[i])
  }

  /** `p` occurs in `s` starting at index `i`. */
  predicate OccursAt(s: string, i: nat, p: string) {
    i + |p| <= |s| && s[i..i + |p|] == p
  }

  /** `t` is the part of `s` from index `i` up to index `j`. */
  predicate IsSlice(t: string, s: string, i: nat, j: nat) {
    i <= j <= |s| && t == s[i..j]
  }

  predicate StartsWith(s: string, p: string) {
    |p| <= |s| && s[..|p|] == p
  }

  predicate EndsWith(s: string, p: string) {
    |p| <= |s| && s[|s| - |p|..] == p
  }

  /** `s` starts with the lower-case pattern `p`, ignoring ASCII case (the `i` regex flag). */
  predicate StartsWithCI(s: string, p: string) {
    |p| <= |s| && forall i :: 0 <= i < |p| ==> ToLowerChar(s[i]) == p[i]
  }

  /** The lower-case pattern `p` occurs at `i` of `s`, ignoring ASCII case. */
  predicate OccursAtCI(s: string, i: nat, p: string) {
    i + |p| <= |s| && forall k :: 0 <= k < |p| ==> ToLowerChar(s[i + k]) == p[k]
  }

  /** Leftmost occurrence of the character `c` in `s` at or after `from`
      (`indexOf` with a one-character pattern). */
  function CharIndexFrom(s: string, c: char, from: nat): (r: Option<nat>)
    requires from <= |s|
    ensures r.Some? ==> from <= r.value < |s| && s[r.value] == c
    ensures r.Some? ==> forall j :: from <= j < r.value ==> s[j] != c
    ensures r.None? ==> forall j :: from <= j < |s| ==> s[j] != c
    decreases |s| - from
  {
    if from == |s| then None
    else if s[from] == c then Some(from)
    else CharIndexFrom(s, c, from + 1)
  }

  /** Leftmost occurrence of `p` in `s` at or after `from`. */
  function IndexOfFrom(s: string, p: string, from: nat): (r: Option<nat>)
    requires from <= |s|
    ensures r.Some? ==> from <= r.value && OccursAt(s, r.value, p)
    ensures r.Some? ==> forall j :: from <= j < r.value ==> !OccursAt(s, j, p)
    ensures r.None? ==> forall j :: from <= j <= |s| ==> !OccursAt(s, j, p)
    decreases |s| - from
  {
    if OccursAt(s, from, p) then Some(from)
    else if from == |s| then None
    else IndexOfFrom(s, p, from + 1)
  }

  function IndexOf(s: string, p: string): (r: Option<nat>)
    ensures r.Some? ==> OccursAt(s, r.value, p)
    ensures r.Some? ==> forall j :: 0 <= j < r.value ==> !OccursAt(s, j, p)
    ensures r.None? ==> forall j :: 0 <= j <= |s| ==> !OccursAt(s, j, p)
  {
    IndexOfFrom(s, p, 0)
  }

  /** `s.includes(p)`. */
  predicate Contains(s: string, p: string) {
    IndexOf(s, p).Some?
  }

  /** `s.replace(p, r)` with a string pattern and a replacement free of `$`
      patterns: only the first occurrence is replaced. */
  function ReplaceFirst(s: string, p: string, r: string): (res: string)
    ensures !Contains(s, p) ==> res == s
  {
    match IndexOf(s, p)
    case None => s
    case Some(i) => s[..i] + r + s[i + |p|..]
  }

  /** Number of leading characters of `s` that satisfy `IsSpace`. */
  function LeadingSpaces(s: string): (n: nat)
    ensures n <= |s|
    ensures forall k :: 0 <= k < n ==> IsSpace(s[k])
    ensures n < |s| ==> !IsSpace(s[n])
  {
    if |s| == 0 || !IsSpace(s[0]) then 0 else 1 + LeadingSpaces(s[1..])
  }

  /** Length of the maximal run of word characters at the start of `s`. */
  function WordRun(s: string): (n: nat)
    ensures n <= |s|
    ensures forall k :: 0 <= k < n ==> IsWordChar(s[k])
    ensures n < |s| ==> !IsWordChar(s[n])
  {
    if |s| == 0 || !IsWordChar(s[0]) then 0 else 1 + WordRun(s[1..])
  }

  /** Index of the first line terminator in `s`, or `|s|`. */
  function LineEnd(s: string): (n: nat)
    ensures n <= |s|
    ensures forall k :: 0 <= k < n ==> !IsLineTerminator(s[k])
    ensures n < |s| ==> IsLineTerminator(s[n])
  {
    if |s| == 0 || IsLineTerminator(s[0]) then 0 else 1 + LineEnd(s[1..])
  }

  /** The whitespace run of `ws + t` is exactly `ws` when `t` does not start with whitespace. */
  lemma LeadingSpacesOf(ws: string, t: string)
    requires AllSpaces(ws)
    requires |t| == 0 || !IsSpace(t[0])
    ensures LeadingSpaces(ws + t) == |ws|
  {
    var s := ws + t;
    assert forall i :: 0 <= i < |ws| ==> s[i] == ws[i];
    assert |t| > 0 ==> s[|ws|] == t[0];
  }

  lemma WordRunOf(w: string, t: string)
    requires AllWordChars(w)
    requires |t| == 0 || !IsWordChar(t[0])
    ensures WordRun(w + t) == |w|
  {
    var s := w + t;
    assert forall i :: 0 <= i < |w| ==> s[i] == w[i];
    assert |t| > 0 ==> s[|w|] == t[0];
  }

  lemma LineEndOf(l: string, t: string)
    requires NoLineTerminator(l)
    requires |t| == 0 || IsLineTerminator(t[0])
    ensures LineEnd(l + t) == |l|
  {
    var s := l + t;
    assert forall i :: 0 <= i < |l| ==> s[i] == l[i];
    assert |t| > 0 ==> s[|l|] == t[0];
  }

  lemma Assoc(x: string, y: string, z: string)
    ensures x + y + z == x + (y + z)
  {
  }

  /** A slice of a slice is a slice of the original. */
  lemma SliceOfSlice(s: string, a: nat, b: nat, j: nat, n: nat)
    requires a <= b <= |s| && j + n <= b - a
    ensures s[a..b][j..j + n] == s[a + j..a + j + n]
  {
    assert s[a..b][j..j + n] == s[a..b][j..][..n];
    assert s[a + j..a + j + n] == s[a + j..][..n];
    assert s[a..b][j..][..n] == s[a + j..][..n];
  }

  function TrimStart(s: string): (r: string)
    ensures r == s[LeadingSpaces(s)..]
  {
    s[LeadingSpaces(s)..]
  }

  function TrimEnd(s: string): (r: string)
    ensures |r| <= |s| && r == s[..|r|]
    ensures AllSpaces(s[|r|..])
    ensures |r| > 0 ==> !IsSpace(r[|r| - 1])
  {
    if |s| == 0 || !IsSpace(s[|s| - 1]) then s else TrimEnd(s[..|s| - 1])
  }

  /** `String.prototype.trim`. */
  function Trim(s: string): (r: string)
    ensures |r| == 0 || (!IsSpace(r[0]) && !IsSpace(r[|r| - 1]))
  {
    TrimEnd(TrimStart(s))
  }

  lemma TrimOfSpaces(s: string)
    requires AllSpaces(s)
    ensures Trim(s) == ""
  {
    if |s| > 0 {
      assert IsSpace(s[0]);
      TrimOfSpaces(s[1..]);
      assert LeadingSpaces(s) == 1 + LeadingSpaces(s[1..]);
    }
  }

  /** Trimming leaves alone a string that neither starts nor ends with whitespace. */
  lemma TrimOfTrimmed(t: string)
    requires |t| == 0 || (!IsSpace(t[0]) && !IsSpace(t[|t| - 1]))
    ensures Trim(t) == t
  {
    LeadingSpacesOf("", t);
    assert "" + t == t;
  }

  /** Trimming ignores leading whitespace already skipped. */
  lemma TrimAfterSpaces(ws: string, t: string)
    requires AllSpaces(ws)
    ensures Trim(ws + t) == Trim(t)
  {
    if |ws| > 0 {
      assert (ws + t)[1..] == ws[1..] + t;
      TrimAfterSpaces(ws[1..], t);
    } else {
      assert ws + t == t;
    }
  }

  /** The parts, in order, concatenated (`parts.join('')`). */
  function Concat(parts: seq<string>): string {
    if |parts| == 0 then "" else parts[0] + Concat(parts[1..])
  }

  /** `parts.join(sep)`. */
  function Join(parts: seq<string>, sep: string): string {
    if |parts| == 0 then ""
    else if |parts| == 1 then parts[0]
    else parts[0] + sep + Join(parts[1..], sep)
  }

  lemma SplitAround(s: string, i: nat)
    requires i < |s|
    ensures s[..i] + [s[i]] + s[i + 1..] == s
  {
  }

  /** Joining a part in front of at least one more puts the separator
      between it and the rest. */
  lemma JoinCons(h: string, ls: seq<string>, sep: string)
    requires |ls| >= 1
    ensures Join([h] + ls, sep) == h + sep + Join(ls, sep)
  {
    assert ([h] + ls)[1..] == ls;
  }

  /** `s.split(/\r?\n/)`: lines separated by a newline, dropping one carriage
      return directly before each newline. Always at least one line. */
  function SplitLines(s: string): (lines: seq<string>)
    ensures |lines| >= 1
    ensures forall i :: 0 <= i < |lines| ==> '\n' !in lines[i]
    decreases |s|
  {
    var n := IndexOf(s, "\n");
    if n.None? then
      assert forall j :: 0 <= j < |s| ==> s[j] != '\n' by {
        forall j | 0 <= j < |s| ensures s[j] != '\n' {
          assert !OccursAt(s, j, "\n");
        }
      }
      [s]
    else
      var i := n.value;
      assert s[i] == '\n' by { assert s[i..i + 1] == "\n"; }
      assert forall j :: 0 <= j < i ==> s[j] != '\n' by {
        forall j | 0 <= j < i ensures s[j] != '\n' {
          assert !OccursAt(s, j, "\n");
        }
      }
      var line := if i > 0 && s[i - 1] == '\r' then s[..i - 1] else s[..i];
      [line] + SplitLines(s[i + 1..])
  }

  lemma NoNewlineIndex(s: string)
    requires '\n' !in s
    ensures IndexOf(s, "\n").None?
  {
    forall j | 0 <= j <= |s| ensures !OccursAt(s, j, "\n") {
      if j < |s| {
        assert s[j] in s;
        assert s[j..j + 1][0] == s[j];
      }
    }
  }

  lemma FirstNewlineIndex(l: string, rest: string)
    requires '\n' !in l
    ensures IndexOf(l + "\n" + rest, "\n") == Some(|l|)
  {
    var s := l + "\n" + rest;
    assert OccursAt(s, |l|, "\n") by { assert s[|l|..|l| + 1] == "\n"; }
    assert forall j :: 0 <= j < |l| ==> !OccursAt(s, j, "\n") by {
      forall j | 0 <= j < |l| ensures !OccursAt(s, j, "\n") {
        assert s[j] == l[j] && l[j] in l;
        assert s[j..j + 1][0] == s[j];
      }
    }
  }

  /** `"\n"`-separated lines that contain no newline and do not end with a
      carriage return split back into themselves. */
  lemma {:induction false} SplitJoinLines(lines: seq<string>)
    requires |lines| >= 1
    requires forall i :: 0 <= i < |lines| ==> '\n' !in lines[i]
    requires forall i :: 0 <= i < |lines| - 1 ==> |lines[i]| == 0 || lines[i][|lines[i]| - 1] != '\r'
    ensures SplitLines(Join(lines, "\n")) == lines
  {
    if |lines| == 1 {
      NoNewlineIndex(lines[0]);
    } else {
      var l := lines[0];
      var rest := Join(lines[1..], "\n");
      var s := l + "\n" + rest;
      assert Join(lines, "\n") == s;
      FirstNewlineIndex(l, rest);
      assert s[..|l|] == l;
      assert s[|l| + 1..] == rest;
      SplitJoinLines(lines[1..]);
      assert SplitLines(s) == [l] + SplitLines(rest);
      assert [l] + lines[1..] == lines;
    }
  }

  /** `s.split(c)` for a one-character separator. */
  function SplitOn(s: string, c: char): (parts: seq<string>)
    ensures |parts| >= 1
    decreases |s|
  {
    if c !in s then [s]
    else
      var i := IndexOfChar(s, c);
      [s[..i]] + SplitOn(s[i + 1..], c)
  }

  function IndexOfChar(s: string, c: char): (i: nat)
    requires c in s
    ensures i < |s| && s[i] == c && forall k :: 0 <= k < i ==> s[k] != c
  {
    if s[0] == c then 0 else IndexOfChar(s[1..], c) + 1
  }

  function LastIndexOfChar(s: string, c: char): (i: nat)
    requires c in s
    ensures i < |s| && s[i] == c && forall k :: i < k < |s| ==> s[k] != c
  {
    if s[|s| - 1] == c then |s| - 1
    else
      assert c in s[..|s| - 1] by {
        var j :| 0 <= j < |s| && s[j] == c;
        assert s[..|s| - 1][j] == c;
      }
      var i := LastIndexOfChar(s[..|s| - 1], c);
      assert s[i + 1..] == s[..|s| - 1][i + 1..] + [s[|s| - 1]];
      i
  }

  /** `c.repeat(n)`. */
  function Repeat(c: char, n: nat): (r: string)
    ensures |r| == n
    ensures forall i :: 0 <= i < n ==> r[i] == c
  {
    if n == 0 then "" else [c] + Repeat(c, n - 1)
  }

  function DigitChar(d: nat): char
    requires d < 10
  {
    ['0', '1', '2', '3', '4', '5', '6', '7', '8', '9'][d]
  }

  /** Decimal rendering of a natural number, as `Number.prototype.toString`. */
  function NatToString(n: nat): (r: string)
    ensures |r| >= 1
    ensures forall i :: 0 <= i < |r| ==> IsDigit(r[i])
  {
    if n < 10 then [DigitChar(n)] else NatToString(n / 10) + [DigitChar(n % 10)]
  }

  /** Decimal rendering with a leading `-` for negative values. */
  function IntToString(x: int): (r: string)
    ensures |r| >= 1
    ensures forall i :: 0 <= i < |r| ==> IsDigit(r[i]) || r[i] == '-'
  {
    if x < 0 then "-" + NatToString(-x) else NatToString(x)
  }

  /** Value of a string of decimal digits, as `parseInt` reads it. */
  function DigitsValue(s: string): nat
    requires forall i :: 0 <= i < |s| ==> IsDigit(s[i])
  {
    if |s| == 0 then 0
    else
      var d := s[|s| - 1];
      assert IsDigit(d);
      DigitsValue(s[..|s| - 1]) * 10 + (d as int - '0' as int)
  }

  lemma {:induction false} DigitsValueOfNatToString(n: nat)
    ensures DigitsValue(NatToString(n)) == n
  {
    var s := NatToString(n);
    if n < 10 {
      assert s == [DigitChar(n)];
      assert DigitChar(n) as int - '0' as int == n;
    } else {
      DigitsValueOfNatToString(n / 10);
      assert s[..|s| - 1] == NatToString(n / 10);
      assert DigitChar(n % 10) as int - '0' as int == n % 10;
    }
  }

  /** Rendering is short: a value below 10^k takes at most k + 1 digits. */
  lemma {:induction false} NatToStringLength(n: nat, k: nat)
    requires n < Pow10(k)
    ensures |NatToString(n)| <= k + 1
  {
    if n >= 10 {
      NatToStringLength(n / 10, k - 1);
    }
  }

  function Pow10(k: nat): nat {
    if k == 0 then 1 else 10 * Pow10(k - 1)
  }

  /** The empty set of strings, and the set holding just `x`. */
  const NoStrings: set<string> := {}

  function Single(x: string): set<string> {
    {x}
  }
}
