/** The command-line conversion of a content directory: every `.org` file
    gets a sibling `.org.mdx` whose frontmatter carries the MD5 checksum
    of its source, conversion is skipped while that checksum still
    matches, and generated files whose source is gone are removed. The
    directory is a map from relative path to content; hashing, the
    converter and `path.basename` are parameters. */
module Checksum {
  import opened Wrappers
  import opened Text

  const Key: string := "checksum:"
  const InjectedPrefix: string := "---\n# checksum: "

  /** An MD5 digest as `digest('hex')` writes it. */
  predicate HexDigest(s: string) {
    |s| == 32 && forall i :: 0 <= i < |s| ==> IsLowerHex(s[i])
  }

  /** The regular expression `checksum:\s*([a-f0-9]{32})` tried at index
      `i`: the key, the longest run of white space, then 32 lower-case hex
      digits. Giving back white space cannot help, since a white-space
      character is never a hex digit. */
  function DigestAt(s: string, i: nat): (r: Option<string>)
    ensures r.Some? ==> HexDigest(r.value) && OccursAt(s, i, Key)
  {
    if !OccursAt(s, i, Key) then None
    else
      var p := i + |Key| + LeadingSpaces(s[i + |Key|..]);
      if p + 32 <= |s| && HexDigest(s[p..p + 32]) then Some(s[p..p + 32]) else None
  }

  /** No match starts in `[from, to)`. */
  predicate NoDigestBetween(s: string, from: nat, to: nat) {
    forall j :: from <= j < to ==> DigestAt(s, j).None?
  }

  /** The leftmost match at or after `from`. */
  function FirstDigest(s: string, from: nat): (r: Option<string>)
    requires from <= |s|
    ensures r.Some? ==> exists i :: from <= i <= |s| && DigestAt(s, i) == r && NoDigestBetween(s, from, i)
    ensures r.None? ==> NoDigestBetween(s, from, |s| + 1)
    decreases |s| - from
  {
    if DigestAt(s, from).Some? then
      assert NoDigestBetween(s, from, from);
      DigestAt(s, from)
    else if from == |s| then
      None
    else
      var r := FirstDigest(s, from + 1);
      FirstDigestLater(s, from, r);
      r
  }

  /** A match first found after `from` is the first from `from` when none
      starts at `from`. */
  lemma FirstDigestLater(s: string, from: nat, r: Option<string>)
    requires from < |s| && DigestAt(s, from).None?
    requires r.Some? ==> exists i :: from + 1 <= i <= |s| && DigestAt(s, i) == r && NoDigestBetween(s, from + 1, i)
    requires r.None? ==> NoDigestBetween(s, from + 1, |s| + 1)
    ensures r.Some? ==> exists i :: from <= i <= |s| && DigestAt(s, i) == r && NoDigestBetween(s, from, i)
    ensures r.None? ==> NoDigestBetween(s, from, |s| + 1)
  {
    if r.Some? {
      var i :| from + 1 <= i <= |s| && DigestAt(s, i) == r && NoDigestBetween(s, from + 1, i);
      assert NoDigestBetween(s, from, i);
    }
  }

  /** `getEmbeddedChecksum`: null for a missing file, else the first
      match's digest. */
  function EmbeddedChecksum(files: map<string, string>, path: string): (r: Option<string>)
    ensures r.Some? ==> path in files && HexDigest(r.value)
  {
    if path !in files then None else FirstDigest(files[path], 0)
  }

  /** The frontmatter with the checksum comment after its opening fence;
      a frontmatter without the fence is left as it is. */
  function InjectChecksum(frontmatter: string, checksum: string): (r: string)
    ensures StartsWith(frontmatter, "---") ==> r == InjectedPrefix + checksum + frontmatter[3..]
    ensures !StartsWith(frontmatter, "---") ==> r == frontmatter
  {
    if StartsWith(frontmatter, "---") then InjectedPrefix + checksum + frontmatter[3..] else frontmatter
  }

  function GeneratedComment(orgFile: string): string {
    "{/* This file is auto-generated from " + orgFile + ". Do not edit directly. */}\n\n"
  }

  /** The content written for an Org file. */
  function FinalContent(frontmatter: string, checksum: string, orgFile: string, markdown: string): string {
    InjectChecksum(frontmatter, checksum) + GeneratedComment(orgFile) + markdown
  }

  lemma PrefixShape()
    ensures |InjectedPrefix| == 16 && InjectedPrefix[6..15] == Key && InjectedPrefix[15] == ' '
    ensures forall i :: 0 <= i < 6 ==> InjectedPrefix[i] != Key[0]
  {
  }

  /** Text starting with the injected prefix yields the digest behind it,
      whatever follows. */
  lemma {:induction false} InjectedDigest(checksum: string, rest: string)
    requires HexDigest(checksum)
    ensures FirstDigest(InjectedPrefix + checksum + rest, 0) == Some(checksum)
  {
    var s := InjectedPrefix + checksum + rest;
    PrefixShape();
    assert s[..16] == InjectedPrefix;
    assert OccursAt(s, 6, Key) by {
      assert s[6..15] == s[..16][6..15];
    }
    assert s[15..] == " " + (checksum + rest);
    assert !IsSpace((checksum + rest)[0]) by {
      assert (checksum + rest)[0] == checksum[0];
    }
    LeadingSpacesOf(" ", checksum + rest);
    assert s[16..48] == checksum;
    assert DigestAt(s, 6) == Some(checksum);
    forall j | 0 <= j < 6 ensures DigestAt(s, j).None? {
      assert s[j] == InjectedPrefix[j];
    }
  }

  /** The round trip: the checksum written into a fenced frontmatter is
      the one read back from the whole generated file. */
  lemma EmbeddedRoundTrip(frontmatter: string, checksum: string, orgFile: string, markdown: string)
    requires HexDigest(checksum) && StartsWith(frontmatter, "---")
    ensures FirstDigest(FinalContent(frontmatter, checksum, orgFile, markdown), 0) == Some(checksum)
  {
    var head := InjectedPrefix + checksum;
    var g := GeneratedComment(orgFile);
    var rest := frontmatter[3..] + g + markdown;
    calc {
      FinalContent(frontmatter, checksum, orgFile, markdown);
      InjectChecksum(frontmatter, checksum) + g + markdown;
      (head + frontmatter[3..]) + g + markdown;
      { Assoc(head, frontmatter[3..], g); }
      (head + (frontmatter[3..] + g)) + markdown;
      { Assoc(head, frontmatter[3..] + g, markdown); }
      head + rest;
    }
    InjectedDigest(checksum, rest);
  }

  // ---------------------------------------------------------------------
  // Paths

  /** `orgFile.replace(/\.org$/, '.org.mdx')`. */
  function MdxPathFor(o: string): (r: string)
    ensures EndsWith(o, ".org") ==> r == o[..|o| - 4] + ".org.mdx"
    ensures !EndsWith(o, ".org") ==> r == o
  {
    if EndsWith(o, ".org") then o[..|o| - 4] + ".org.mdx" else o
  }

  /** `mdxFile.replace(/\.org\.mdx$/, '.org')`. */
  function OrgCounterpart(m: string): (r: string)
    ensures EndsWith(m, ".org.mdx") ==> r == m[..|m| - 8] + ".org"
    ensures !EndsWith(m, ".org.mdx") ==> r == m
  {
    if EndsWith(m, ".org.mdx") then m[..|m| - 8] + ".org" else m
  }

  /** The two renamings are inverse on their domains. */
  lemma PathsInverse(o: string, m: string)
    ensures EndsWith(o, ".org") ==> EndsWith(MdxPathFor(o), ".org.mdx") && OrgCounterpart(MdxPathFor(o)) == o
    ensures EndsWith(m, ".org.mdx") ==> EndsWith(OrgCounterpart(m), ".org") && MdxPathFor(OrgCounterpart(m)) == m
  {
    if EndsWith(o, ".org") {
      var r := o[..|o| - 4] + ".org.mdx";
      assert r[|r| - 8..] == ".org.mdx";
      assert r[..|r| - 8] + ".org" == o;
    }
    if EndsWith(m, ".org.mdx") {
      var r := m[..|m| - 8] + ".org";
      assert r[|r| - 4..] == ".org";
      assert r[..|r| - 4] + ".org.mdx" == m;
    }
  }

  /** Distinct Org files get distinct outputs, and no output is an Org
      file. */
  lemma MdxPathsDistinct(a: string, b: string)
    requires EndsWith(a, ".org") && EndsWith(b, ".org")
    ensures MdxPathFor(a) == MdxPathFor(b) ==> a == b
    ensures !EndsWith(MdxPathFor(a), ".org")
  {
    PathsInverse(a, "");
    PathsInverse(b, "");
    var r := MdxPathFor(a);
    assert r[|r| - 1] == 'x';
  }

  // ---------------------------------------------------------------------
  // One file

  datatype Converted = Converted(frontmatter: string, markdown: string)

  /** What a run needs from outside: the hash of a source text, the
      converter (which may throw: `Failure` carries what it threw), and the
      base name of an Org path. */
  datatype Tools = Tools(md5: string -> string, convert: (string, string) -> Result<Converted, string>, basename: string -> string)

  /** The files after a step or a run, and what a throwing conversion threw:
      the throw leaves the loop and ends `main`, and the files written
      before it stay written. */
  datatype Outcome = Outcome(files: map<string, string>, error: Option<string>)

  /** Skip when the cached checksum equals the current one and the output
      exists. */
  predicate ShouldSkip(cached: Option<string>, current: string, exists_: bool) {
    cached == Some(current) && exists_
  }

  /** The existence test never decides anything: a cached checksum is only
      found in an existing file. */
  lemma ExistenceTestRedundant(files: map<string, string>, mdx: string, current: string)
    ensures ShouldSkip(EmbeddedChecksum(files, mdx), current, mdx in files) <==> EmbeddedChecksum(files, mdx) == Some(current)
  {
  }

  /** The loop body for one Org file. A throwing conversion writes nothing. */
  function SyncOne(files: map<string, string>, o: string, t: Tools): (r: Outcome)
    requires o in files
    ensures r.error.None? ==> r.files.Keys == files.Keys + Single(MdxPathFor(o))
    ensures r.error.Some? ==> r.files == files && t.convert(files[o], t.basename(o)).Failure?
    ensures t.convert(files[o], t.basename(o)).Success? ==> r.error.None?
    ensures forall k :: k in files && k != MdxPathFor(o) ==> k in r.files && r.files[k] == files[k]
  {
    var mdx := MdxPathFor(o);
    var cs := t.md5(files[o]);
    if ShouldSkip(EmbeddedChecksum(files, mdx), cs, mdx in files) then Outcome(files, None)
    else
      match t.convert(files[o], t.basename(o))
      case Failure(e) => Outcome(files, Some(e))
      case Success(c) => Outcome(files[mdx := FinalContent(c.frontmatter, cs, o, c.markdown)], None)
  }

  /** The tools behave as the script assumes: digests are 32 hex digits
      and every frontmatter a conversion returns opens with a fence. */
  ghost predicate WellBehaved(t: Tools) {
    (forall c :: HexDigest(t.md5(c))) &&
    (forall c, b :: t.convert(c, b).Success? ==> StartsWith(t.convert(c, b).value.frontmatter, "---"))
  }

  /** An Org file whose output carries the checksum of its current text. */
  predicate Synced(files: map<string, string>, o: string, t: Tools)
    requires o in files
  {
    EmbeddedChecksum(files, MdxPathFor(o)) == Some(t.md5(files[o]))
  }

  /** After its step an Org file is synced, unless its conversion threw. */
  lemma SyncOneSyncs(files: map<string, string>, o: string, t: Tools)
    requires o in files && EndsWith(o, ".org") && WellBehaved(t)
    ensures o in SyncOne(files, o, t).files
    ensures SyncOne(files, o, t).error.None? ==> Synced(SyncOne(files, o, t).files, o, t)
  {
    var mdx := MdxPathFor(o);
    MdxPathsDistinct(o, o);
    var cs := t.md5(files[o]);
    if !ShouldSkip(EmbeddedChecksum(files, mdx), cs, mdx in files) && t.convert(files[o], t.basename(o)).Success? {
      var c := t.convert(files[o], t.basename(o)).value;
      EmbeddedRoundTrip(c.frontmatter, cs, o, c.markdown);
    }
  }

  /** Another Org file's step leaves a synced file synced. */
  lemma SyncOneKeeps(files: map<string, string>, o: string, other: string, t: Tools)
    requires o in files && other in files && EndsWith(o, ".org") && EndsWith(other, ".org") && o != other
    requires Synced(files, o, t)
    ensures o in SyncOne(files, other, t).files && Synced(SyncOne(files, other, t).files, o, t)
  {
    MdxPathsDistinct(o, other);
    MdxPathsDistinct(other, o);
  }

  /** A second run of the same step repeats the first outcome: a skip after
      a write, the same throw after a throw. */
  lemma SyncOneIdempotent(files: map<string, string>, o: string, t: Tools)
    requires o in files && EndsWith(o, ".org") && WellBehaved(t)
    ensures o in SyncOne(files, o, t).files && SyncOne(SyncOne(files, o, t).files, o, t) == SyncOne(files, o, t)
  {
    SyncOneSyncs(files, o, t);
  }

  // ---------------------------------------------------------------------
  // The whole run

  /** The Org files, in the order the glob lists them. */
  predicate OrgList(files: map<string, string>, orgs: seq<string>) {
    forall i :: 0 <= i < |orgs| ==> orgs[i] in files && EndsWith(orgs[i], ".org")
  }

  /** The conversion loop over all Org files; a throwing conversion ends it. */
  function SyncAll(files: map<string, string>, orgs: seq<string>, t: Tools): (r: Outcome)
    requires OrgList(files, orgs)
    ensures files.Keys <= r.files.Keys
    ensures forall k :: k in r.files ==> k in files || exists i :: 0 <= i < |orgs| && k == MdxPathFor(orgs[i])
    ensures forall k :: k in files && EndsWith(k, ".org") ==> r.files[k] == files[k]
    decreases |orgs|
  {
    if |orgs| == 0 then Outcome(files, None)
    else
      var next := SyncOne(files, orgs[0], t);
      MdxPathsDistinct(orgs[0], orgs[0]);
      if next.error.Some? then next
      else
        var r := SyncAll(next.files, orgs[1..], t);
        assert forall k :: k in next.files && EndsWith(k, ".org") ==> k != MdxPathFor(orgs[0]);
        assert forall i :: 1 <= i < |orgs| ==> orgs[1..][i - 1] == orgs[i];
        r
  }

  /** Synced files stay synced through the rest of the run. */
  lemma {:induction false} SyncAllKeeps(files: map<string, string>, orgs: seq<string>, o: string, t: Tools)
    requires OrgList(files, orgs) && o in files && EndsWith(o, ".org") && Synced(files, o, t) && WellBehaved(t)
    ensures o in SyncAll(files, orgs, t).files && Synced(SyncAll(files, orgs, t).files, o, t)
    decreases |orgs|
  {
    if |orgs| > 0 {
      var next := SyncOne(files, orgs[0], t);
      if orgs[0] == o {
        SyncOneSyncs(files, o, t);
      } else {
        SyncOneKeeps(files, o, orgs[0], t);
      }
      if next.error.None? {
        SyncAllKeeps(next.files, orgs[1..], o, t);
      }
    }
  }

  /** After a run that ends without a throw, every listed Org file is synced. */
  lemma {:induction false} SyncAllSyncs(files: map<string, string>, orgs: seq<string>, t: Tools)
    requires OrgList(files, orgs) && WellBehaved(t)
    ensures SyncAll(files, orgs, t).error.None? ==>
      forall i :: 0 <= i < |orgs| ==> orgs[i] in SyncAll(files, orgs, t).files && Synced(SyncAll(files, orgs, t).files, orgs[i], t)
    decreases |orgs|
  {
    if |orgs| > 0 {
      var next := SyncOne(files, orgs[0], t);
      if next.error.None? {
        SyncOneSyncs(files, orgs[0], t);
        SyncAllKeeps(next.files, orgs[1..], orgs[0], t);
        SyncAllSyncs(next.files, orgs[1..], t);
        var r := SyncAll(files, orgs, t);
        assert r == SyncAll(next.files, orgs[1..], t);
        if r.error.None? {
          forall i | 0 <= i < |orgs| ensures orgs[i] in r.files && Synced(r.files, orgs[i], t) {
            if i > 0 {
              assert orgs[i] == orgs[1..][i - 1];
            }
          }
        }
      }
    }
  }

  /** When every listed Org file converts without throwing, the run ends
      without a throw. */
  lemma {:induction false} SyncAllCompletes(files: map<string, string>, orgs: seq<string>, t: Tools)
    requires OrgList(files, orgs)
    requires forall i :: 0 <= i < |orgs| ==> t.convert(files[orgs[i]], t.basename(orgs[i])).Success?
    ensures SyncAll(files, orgs, t).error.None?
    decreases |orgs|
  {
    if |orgs| > 0 {
      var next := SyncOne(files, orgs[0], t);
      MdxPathsDistinct(orgs[0], orgs[0]);
      forall i | 0 <= i < |orgs| - 1 ensures t.convert(next.files[orgs[1..][i]], t.basename(orgs[1..][i])).Success? {
        assert orgs[1..][i] == orgs[i + 1];
      }
      SyncAllCompletes(next.files, orgs[1..], t);
    }
  }

  /** File `k` is the same in both maps: there in both with the same text,
      or in neither. */
  predicate Untouched(a: map<string, string>, b: map<string, string>, k: string) {
    (k in a <==> k in b) && (k in a && k in b ==> a[k] == b[k])
  }

  /** The generated files of `orgs[j..]` are the same in both maps. */
  predicate StaleFrom(a: map<string, string>, b: map<string, string>, orgs: seq<string>, j: nat) {
    forall i :: j <= i < |orgs| ==> Untouched(a, b, MdxPathFor(orgs[i]))
  }

  /** The conversion of `orgs[j]` throws. */
  predicate ThrowsAt(files: map<string, string>, orgs: seq<string>, t: Tools, j: nat)
    requires OrgList(files, orgs)
  {
    j < |orgs| && t.convert(files[orgs[j]], t.basename(orgs[j])).Failure?
  }

  /** A throw ends the run: some listed Org file failed to convert, and
      neither its generated file nor that of any Org file after it was
      written, so those stay as they were before the run. */
  lemma {:induction false} ThrowLeavesRestStale(files: map<string, string>, orgs: seq<string>, t: Tools)
    requires OrgList(files, orgs)
    requires forall i, k :: 0 <= i < k < |orgs| ==> orgs[i] != orgs[k]
    ensures SyncAll(files, orgs, t).error.Some? ==>
      exists j: nat :: ThrowsAt(files, orgs, t, j) && StaleFrom(files, SyncAll(files, orgs, t).files, orgs, j)
    decreases |orgs|
  {
    var r := SyncAll(files, orgs, t);
    if |orgs| > 0 && r.error.Some? {
      var next := SyncOne(files, orgs[0], t);
      if next.error.Some? {
        assert ThrowsAt(files, orgs, t, 0) && StaleFrom(files, r.files, orgs, 0);
      } else {
        var rest := orgs[1..];
        MdxPathsDistinct(orgs[0], orgs[0]);
        ThrowLeavesRestStale(next.files, rest, t);
        assert r == SyncAll(next.files, rest, t);
        var j1: nat :| ThrowsAt(next.files, rest, t, j1) && StaleFrom(next.files, r.files, rest, j1);
        StepThenStale(files, orgs, t, j1);
      }
    }
  }

  /** The inductive step: a step that did not throw, then a run of the
      rest that threw at `j1`, threw at `j1 + 1` of the whole list. */
  lemma StepThenStale(files: map<string, string>, orgs: seq<string>, t: Tools, j1: nat)
    requires OrgList(files, orgs) && |orgs| > 0
    requires forall i, k :: 0 <= i < k < |orgs| ==> orgs[i] != orgs[k]
    requires SyncOne(files, orgs[0], t).error.None?
    requires OrgList(SyncOne(files, orgs[0], t).files, orgs[1..])
    requires ThrowsAt(SyncOne(files, orgs[0], t).files, orgs[1..], t, j1)
    requires StaleFrom(SyncOne(files, orgs[0], t).files, SyncAll(SyncOne(files, orgs[0], t).files, orgs[1..], t).files, orgs[1..], j1)
    ensures ThrowsAt(files, orgs, t, j1 + 1)
    ensures StaleFrom(files, SyncAll(SyncOne(files, orgs[0], t).files, orgs[1..], t).files, orgs, j1 + 1)
  {
    var next := SyncOne(files, orgs[0], t).files;
    var r := SyncAll(next, orgs[1..], t).files;
    var o := orgs[j1 + 1];
    assert orgs[1..][j1] == o;
    MdxPathsDistinct(o, o);
    assert next[o] == files[o];
    forall i | j1 + 1 <= i < |orgs| ensures Untouched(files, r, MdxPathFor(orgs[i])) {
      var m := MdxPathFor(orgs[i]);
      assert orgs[1..][i - 1] == orgs[i];
      assert Untouched(next, r, m);
      MdxPathsDistinct(orgs[i], orgs[0]);
      assert m != MdxPathFor(orgs[0]);
      assert Untouched(files, next, m);
    }
  }

  // ---------------------------------------------------------------------
  // Clean-up

  /** A generated file whose Org source is not there. */
  predicate OrphanMdx(files: map<string, string>, m: string) {
    m in files && EndsWith(m, ".org.mdx") && OrgCounterpart(m) !in files
  }

  /** What the two clean-up loops delete: orphaned outputs, their
      `.md5sum` files, and checksum files of the older `.org.md5sum`
      scheme. */
  predicate Removed(files: map<string, string>, k: string) {
    OrphanMdx(files, k) ||
    (EndsWith(k, ".md5sum") && OrphanMdx(files, k[..|k| - 7])) ||
    EndsWith(k, ".org.md5sum")
  }

  function Cleanup(files: map<string, string>): (r: map<string, string>)
    ensures forall k :: k in r <==> k in files && !Removed(files, k)
    ensures forall k :: k in r ==> r[k] == files[k]
  {
    map k | k in files && !Removed(files, k) :: files[k]
  }

  /** Endings that tell the kinds of file apart. */
  lemma EndingsDiffer(k: string)
    ensures EndsWith(k, ".org") ==> !EndsWith(k, ".org.mdx") && !EndsWith(k, ".md5sum") && !EndsWith(k, ".org.md5sum")
    ensures EndsWith(k, ".org.mdx") ==> !EndsWith(k, ".md5sum") && !EndsWith(k, ".org.md5sum")
  {
    if |k| > 0 {
      var c := k[|k| - 1];
      assert EndsWith(k, ".org") ==> c == 'g';
      assert EndsWith(k, ".org.mdx") ==> c == 'x';
      assert EndsWith(k, ".md5sum") ==> c == 'm';
      assert EndsWith(k, ".org.md5sum") ==> c == 'm';
    }
  }

  /** `main`: clean up, then convert each Org file. The glob's list is
      every Org file, each once. */
  function Regenerate(files: map<string, string>, orgs: seq<string>, t: Tools): (r: Outcome)
    requires forall k :: k in orgs <==> k in files && EndsWith(k, ".org")
  {
    var cleaned := Cleanup(files);
    assert OrgList(cleaned, orgs) by {
      forall i | 0 <= i < |orgs| ensures orgs[i] in cleaned && EndsWith(orgs[i], ".org") {
        EndingsDiffer(orgs[i]);
      }
    }
    SyncAll(cleaned, orgs, t)
  }

  /** After a run, whether or not a conversion threw: every Org file is
      kept with its text unchanged, every generated file has its Org
      source, and no old-scheme checksum file is left. When no conversion
      threw, every Org file is also synced. */
  lemma RegenerateOutcome(files: map<string, string>, orgs: seq<string>, t: Tools)
    requires forall k :: k in orgs <==> k in files && EndsWith(k, ".org")
    requires WellBehaved(t)
    ensures var r := Regenerate(files, orgs, t).files;
      forall o :: o in files && EndsWith(o, ".org") ==> o in r && r[o] == files[o]
    ensures var r := Regenerate(files, orgs, t);
      r.error.None? ==> forall o :: o in files && EndsWith(o, ".org") ==> o in r.files && Synced(r.files, o, t)
    ensures var r := Regenerate(files, orgs, t).files;
      forall k :: k in r && EndsWith(k, ".org.mdx") ==> OrgCounterpart(k) in r
    ensures var r := Regenerate(files, orgs, t).files;
      forall k :: k in r ==> !EndsWith(k, ".org.md5sum")
  {
    var cleaned := Cleanup(files);
    forall i | 0 <= i < |orgs| ensures orgs[i] in cleaned && EndsWith(orgs[i], ".org") {
      EndingsDiffer(orgs[i]);
    }
    var out := SyncAll(cleaned, orgs, t);
    var r := out.files;
    assert out == Regenerate(files, orgs, t);
    SyncAllSyncs(cleaned, orgs, t);
    forall o | o in files && EndsWith(o, ".org") ensures o in r && r[o] == files[o] && (out.error.None? ==> Synced(r, o, t)) {
      EndingsDiffer(o);
      var i :| 0 <= i < |orgs| && orgs[i] == o;
    }
    forall k | k in r && EndsWith(k, ".org.mdx") ensures OrgCounterpart(k) in r {
      PathsInverse("", k);
      if k in cleaned {
        EndingsDiffer(OrgCounterpart(k));
      } else {
        var i :| 0 <= i < |orgs| && k == MdxPathFor(orgs[i]);
        PathsInverse(orgs[i], k);
      }
    }
    forall k | k in r ensures !EndsWith(k, ".org.md5sum") {
      if k !in cleaned {
        var i :| 0 <= i < |orgs| && k == MdxPathFor(orgs[i]);
        PathsInverse(orgs[i], "");
        EndingsDiffer(k);
      }
    }
  }

  /** A throw during a run leaves the generated file of the Org file that
      threw, and of every Org file listed after it, as the clean-up left
      it. */
  lemma RegenerateThrowLeavesRestStale(files: map<string, string>, orgs: seq<string>, t: Tools)
    requires forall k :: k in orgs <==> k in files && EndsWith(k, ".org")
    requires forall i, k :: 0 <= i < k < |orgs| ==> orgs[i] != orgs[k]
    ensures Regenerate(files, orgs, t).error.Some? ==>
      exists j: nat :: j < |orgs| && t.convert(files[orgs[j]], t.basename(orgs[j])).Failure? && StaleFrom(Cleanup(files), Regenerate(files, orgs, t).files, orgs, j)
  {
    var cleaned := Cleanup(files);
    forall i | 0 <= i < |orgs| ensures orgs[i] in cleaned && EndsWith(orgs[i], ".org") {
      EndingsDiffer(orgs[i]);
    }
    ThrowLeavesRestStale(cleaned, orgs, t);
    assert SyncAll(cleaned, orgs, t) == Regenerate(files, orgs, t);
    if Regenerate(files, orgs, t).error.Some? {
      var j: nat :| ThrowsAt(cleaned, orgs, t, j) && StaleFrom(cleaned, SyncAll(cleaned, orgs, t).files, orgs, j);
      assert cleaned[orgs[j]] == files[orgs[j]];
    }
  }
}
