/** The last step of the conversion: Markdown serialisation escapes `<` and
    `>` in text as `\<` and `\>`, and the converter undoes that with
    `.replace(/\\</g, '<').replace(/\\>/g, '>')`. */
module Unescape {
  import opened Text

  /** `.replace(/\\c/g, c)`: every backslash directly before `c` removed,
      scanning left to right. */
  function DropBackslashBefore(s: string, c: char): (r: string)
    requires c != '\\'
    decreases |s|
  {
    if |s| >= 2 && s[0] == '\\' && s[1] == c then [c] + DropBackslashBefore(s[2..], c)
    else if |s| == 0 then ""
    else [s[0]] + DropBackslashBefore(s[1..], c)
  }

  /** The two passes, `<` first. */
  function UnescapeAngles(s: string): string {
    DropBackslashBefore(DropBackslashBefore(s, '<'), '>')
  }

  predicate IsAngle(c: char) {
    c == '<' || c == '>'
  }

  /** The reference: each character of the original is kept unless it is a
      backslash directly followed by `<` or `>` in the original. */
  function Unescaped(s: string): string
    decreases |s|
  {
    if |s| == 0 then ""
    else (if s[0] == '\\' && |s| >= 2 && IsAngle(s[1]) then "" else [s[0]]) + Unescaped(s[1..])
  }

  /** Running the two passes one after the other removes exactly the
      backslashes that stood before an angle bracket in the original: the
      first pass cannot create a new `\>` for the second to remove. */
  lemma {:induction false} TwoPassesAreOne(s: string)
    ensures UnescapeAngles(s) == Unescaped(s)
    decreases |s|
  {
    if |s| >= 2 && s[0] == '\\' && s[1] == '<' {
      TwoPassesAreOne(s[2..]);
      assert s[1..][1..] == s[2..];
    } else if |s| >= 2 && s[0] == '\\' && s[1] == '>' {
      TwoPassesAreOne(s[2..]);
      var a := DropBackslashBefore(s[2..], '<');
      assert DropBackslashBefore(s[1..], '<') == ">" + a by {
        assert s[1..][1..] == s[2..];
      }
      assert DropBackslashBefore(s, '<') == "\\>" + a;
      assert ("\\>" + a)[2..] == a;
      assert s[1..][1..] == s[2..];
    } else if |s| >= 1 {
      TwoPassesAreOne(s[1..]);
      var a := DropBackslashBefore(s[1..], '<');
      assert DropBackslashBefore(s, '<') == [s[0]] + a;
      FirstAfterPass(s[1..]);
      assert ([s[0]] + a)[1..] == a;
    }
  }

  /** After the first pass the text starts with `>` only if it did before. */
  lemma FirstAfterPass(t: string)
    ensures var a := DropBackslashBefore(t, '<'); |a| > 0 && a[0] == '>' ==> |t| > 0 && t[0] == '>'
  {
  }

  /** Text without backslashes is left unchanged. */
  lemma {:induction false} NoBackslashUnchanged(s: string)
    requires '\\' !in s
    ensures UnescapeAngles(s) == s
    decreases |s|
  {
    TwoPassesAreOne(s);
    NoBackslashReference(s);
  }

  lemma {:induction false} NoBackslashReference(s: string)
    requires '\\' !in s
    ensures Unescaped(s) == s
    decreases |s|
  {
    if |s| > 0 {
      assert s[0] != '\\';
      assert '\\' !in s[1..] by {
        assert forall j :: 0 <= j < |s[1..]| ==> s[1..][j] == s[j + 1];
      }
      NoBackslashReference(s[1..]);
      assert s == [s[0]] + s[1..];
    }
  }
}
