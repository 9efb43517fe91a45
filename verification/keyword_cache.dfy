/** The memoised keyword extractor of the standalone converter package: the
    line-based extraction behind a bounded first-in-first-out cache keyed by
    the document itself (short documents) or by a 32-bit string hash (long
    ones). The cache is an explicit value threaded through calls instead
    of state kept by the module. */
module KeywordCache {
  import opened Wrappers
  import opened Text
  import OM = OrderedMap
  import K = Keywords

  const MaxCacheSize: nat := 50
  /** Documents shorter than this are their own cache key. */
  const ShortContentLimit: nat := 1000

  const TwoTo31: int := 0x8000_0000
  const TwoTo32: int := 0x1_0000_0000

  predicate IsInt32(x: int) {
    -TwoTo31 <= x < TwoTo31
  }

  /** JavaScript's ToInt32: the signed 32-bit value congruent to `x`
      modulo 2^32. */
  function ToInt32(x: int): (r: int)
    ensures IsInt32(r)
    ensures (x - r) % TwoTo32 == 0
  {
    var m := x % TwoTo32;
    if m >= TwoTo31 then m - TwoTo32 else m
  }

  /** ToInt32 only depends on the residue modulo 2^32, and leaves 32-bit
      values alone. */
  lemma ToInt32Congruent(x: int, y: int)
    requires (x - y) % TwoTo32 == 0
    ensures ToInt32(x) == ToInt32(y)
  {
    var q := (x - y) / TwoTo32;
    assert x == y + q * TwoTo32;
    ModShift(y, q);
  }

  lemma ModShift(y: int, q: int)
    ensures (y + q * TwoTo32) % TwoTo32 == y % TwoTo32
  {
  }

  lemma ToInt32OfInt32(x: int)
    requires IsInt32(x)
    ensures ToInt32(x) == x
  {
  }

  /** One iteration of the hash loop, operator by operator:
      `hash = (hash << 5) - hash + char` (the shift works on 32 bits, the
      subtraction and addition on doubles that stay exact), then
      `hash = hash & hash` (back to 32 bits). */
  function HashStep(h: int, c: char): (r: int)
    requires IsInt32(h)
    ensures IsInt32(r)
  {
    var shifted := ToInt32(h * 32);
    ToInt32(shifted - h + c as int)
  }

  /** The step is multiplication by 31 and addition, wrapped to 32 bits. */
  lemma HashStepIsMultiplyAdd(h: int, c: char)
    requires IsInt32(h)
    ensures HashStep(h, c) == ToInt32(31 * h + c as int)
  {
    var shifted := ToInt32(h * 32);
    assert (h * 32 - shifted) % TwoTo32 == 0;
    assert (shifted - h + c as int) - (31 * h + c as int) == -(h * 32 - shifted);
    NegatedMultiple(h * 32 - shifted);
    ToInt32Congruent(shifted - h + c as int, 31 * h + c as int);
  }

  lemma NegatedMultiple(d: int)
    requires d % TwoTo32 == 0
    ensures (-d) % TwoTo32 == 0
  {
    var q := d / TwoTo32;
    assert d == q * TwoTo32;
    assert -d == (-q) * TwoTo32;
  }

  /** `getCacheKey`'s hash of a whole document: the loop folded over the
      characters from the left, starting at 0. */
  function Hash(s: string): (r: int)
    ensures IsInt32(r)
  {
    if |s| == 0 then 0 else HashStep(Hash(s[..|s| - 1]), s[|s| - 1])
  }

  /** The hash loop as the source runs it. */
  method ComputeHash(content: string) returns (hash: int)
    ensures hash == Hash(content)
    ensures IsInt32(hash)
  {
    hash := 0;
    var i := 0;
    while i < |content|
      invariant 0 <= i <= |content|
      invariant hash == Hash(content[..i])
    {
      assert content[..i + 1][..i] == content[..i];
      hash := HashStep(hash, content[i]);
      i := i + 1;
    }
    assert content[..|content|] == content;
  }

  /** Only digits and minus signs: the shape of a rendered hash. */
  predicate NumeralLike(s: string) {
    forall i :: 0 <= i < |s| ==> IsDigit(s[i]) || s[i] == '-'
  }

  /** `getCacheKey`: the document itself when short, else its hash in
      decimal. */
  function CacheKey(content: string): (k: string)
    ensures |content| < ShortContentLimit ==> k == content
    ensures |content| >= ShortContentLimit ==> NumeralLike(k) && 1 <= |k| <= 12
  {
    if |content| < ShortContentLimit then content
    else
      var h := Hash(content);
      Int32StringLength(h);
      IntToString(h)
  }

  lemma Int32StringLength(h: int)
    requires IsInt32(h)
    ensures |IntToString(h)| <= 12
  {
    assert Pow10(10) == 10000000000;
    if h < 0 {
      NatToStringLength(-h, 10);
    } else {
      NatToStringLength(h, 10);
    }
  }

  /** A document with any character other than a digit or `-` (every
      document that defines a keyword has a `#`) cannot share its key with
      another document: only it maps to that key. */
  lemma KeyDeterminesNonNumeralDocument(content: string, other: string)
    requires |content| < ShortContentLimit && !NumeralLike(content)
    requires CacheKey(other) == content
    ensures other == content
  {
  }

  /** A long document shares its key with the short document spelling its
      hash in decimal. */
  lemma NumeralKeyCollision(long: string)
    requires |long| >= ShortContentLimit
    ensures |IntToString(Hash(long))| < ShortContentLimit
    ensures CacheKey(IntToString(Hash(long))) == CacheKey(long)
  {
    Int32StringLength(Hash(long));
  }

  // ---------------------------------------------------------------------
  // The cache: a JavaScript Map in insertion order. The functions below take
  // the uncached extractor as `extract`; the package uses the line-based
  // extractor, `Keywords.ExtractOrgKeywords`, as `ExtractOrg` instantiates.

  type Cache = OM.Entries<K.KeywordMap>
  type Extractor = string -> K.KeywordMap

  /** Eviction before an insertion: when full, drop the oldest entry. */
  function Evict(cache: Cache): (r: Cache)
    ensures |cache| >= MaxCacheSize ==> |r| == |cache| - 1
    ensures |cache| < MaxCacheSize ==> r == cache
    ensures |r| <= |cache| && r == cache[|cache| - |r|..]
  {
    if |cache| >= MaxCacheSize then cache[1..] else cache
  }

  /** Eviction as written: the oldest key is deleted only when it is truthy,
      so an empty-string key (the empty document's) is never deleted. */
  function EvictAsWritten(cache: Cache): (r: Cache)
    ensures |r| <= |cache| && r == cache[|cache| - |r|..]
    ensures |cache| >= MaxCacheSize && cache[0].0 != "" ==> |r| == |cache| - 1
    ensures |cache| >= MaxCacheSize && cache[0].0 == "" ==> r == cache
  {
    if |cache| >= MaxCacheSize && cache[0].0 != "" then cache[1..] else cache
  }

  /** The result of one call: the keywords returned and the cache after. */
  datatype Outcome = Outcome(keywords: K.KeywordMap, cache: Cache)

  /** `extractOrgKeywords` of the package, with the corrected eviction. */
  function ExtractCached(extract: Extractor, cache: Cache, content: string): (r: Outcome)
    ensures OM.Get(r.cache, CacheKey(content)) == Some(r.keywords)
    ensures OM.HasKey(cache, CacheKey(content)) ==> r.cache == cache
    ensures !OM.HasKey(cache, CacheKey(content)) ==>
      r.keywords == extract(content) && r.cache == Evict(cache) + [(CacheKey(content), r.keywords)]
  {
    var key := CacheKey(content);
    match OM.Get(cache, key)
    case Some(kw) => Outcome(kw, cache)
    case None =>
      var kw := extract(content);
      var evicted := Evict(cache);
      SuffixLacksKey(cache, evicted, key);
      Outcome(kw, OM.Put(evicted, key, kw))
  }

  /** `extractOrgKeywords` of the package as written. */
  function ExtractCachedAsWritten(extract: Extractor, cache: Cache, content: string): (r: Outcome)
    ensures OM.Get(r.cache, CacheKey(content)) == Some(r.keywords)
    ensures OM.HasKey(cache, CacheKey(content)) ==> r.cache == cache
    ensures !OM.HasKey(cache, CacheKey(content)) ==>
      r.keywords == extract(content) &&
      r.cache == EvictAsWritten(cache) + [(CacheKey(content), r.keywords)]
  {
    var key := CacheKey(content);
    match OM.Get(cache, key)
    case Some(kw) => Outcome(kw, cache)
    case None =>
      var kw := extract(content);
      var evicted := EvictAsWritten(cache);
      SuffixLacksKey(cache, evicted, key);
      Outcome(kw, OM.Put(evicted, key, kw))
  }

  /** The package's `extractOrgKeywords`. */
  function ExtractOrg(cache: Cache, content: string): (r: Outcome)
    ensures !OM.HasKey(cache, CacheKey(content)) ==> r.keywords == K.ExtractOrgKeywords(content)
  {
    ExtractCached(K.ExtractOrgKeywords, cache, content)
  }

  /** A key missing from a map is missing from each of its suffixes. */
  lemma SuffixLacksKey(cache: Cache, suffix: Cache, key: string)
    requires |suffix| <= |cache| && suffix == cache[|cache| - |suffix|..]
    ensures OM.HasKey(suffix, key) ==> OM.HasKey(cache, key)
  {
    var d := |cache| - |suffix|;
    if OM.HasKey(suffix, key) {
      var i :| 0 <= i < |suffix| && OM.Keys(suffix)[i] == key;
      assert OM.Keys(cache)[d + i] == key;
    }
  }

  /** Keys stay unique and the cache never exceeds its bound. */
  lemma CacheStaysBounded(extract: Extractor, cache: Cache, content: string)
    requires OM.KeysUnique(cache) && |cache| <= MaxCacheSize
    ensures OM.KeysUnique(ExtractCached(extract, cache, content).cache)
    ensures |ExtractCached(extract, cache, content).cache| <= MaxCacheSize
  {
    var key := CacheKey(content);
    if !OM.HasKey(cache, key) {
      var evicted := Evict(cache);
      SuffixKeysUnique(cache, evicted);
      SuffixLacksKey(cache, evicted, key);
      OM.PutKeepsKeysUnique(evicted, key, extract(content));
    }
  }

  lemma SuffixKeysUnique(cache: Cache, suffix: Cache)
    requires OM.KeysUnique(cache)
    requires |suffix| <= |cache| && suffix == cache[|cache| - |suffix|..]
    ensures OM.KeysUnique(suffix)
  {
    var d := |cache| - |suffix|;
    forall i, j | 0 <= i < j < |suffix| ensures suffix[i].0 != suffix[j].0 {
      assert suffix[i] == cache[d + i] && suffix[j] == cache[d + j];
    }
  }

  /** Every cached entry whose key is not numeral-like holds the extraction
      of that very key (which is then the document it came from). */
  predicate Faithful(extract: Extractor, cache: Cache) {
    forall i :: 0 <= i < |cache| && !NumeralLike(cache[i].0) ==>
      cache[i].1 == extract(cache[i].0)
  }

  /** The cache never changes what a document with a non-numeral character
      extracts to, and it stays faithful. */
  lemma CachedExtractionFaithful(extract: Extractor, cache: Cache, content: string)
    requires Faithful(extract, cache)
    ensures Faithful(extract, ExtractCached(extract, cache, content).cache)
    ensures |content| < ShortContentLimit && !NumeralLike(content) ==>
      ExtractCached(extract, cache, content).keywords == extract(content)
  {
    var key := CacheKey(content);
    var r := ExtractCached(extract, cache, content);
    if OM.HasKey(cache, key) {
      OM.GetFindsEntry(cache, key);
      var i :| 0 <= i < |cache| && cache[i] == (key, r.keywords);
      if |content| < ShortContentLimit && !NumeralLike(content) {
        assert !NumeralLike(cache[i].0);
      }
    } else {
      var evicted := Evict(cache);
      var d := |cache| - |evicted|;
      forall i | 0 <= i < |r.cache| && !NumeralLike(r.cache[i].0)
        ensures r.cache[i].1 == extract(r.cache[i].0)
      {
        if i < |evicted| {
          assert r.cache[i] == cache[d + i];
        }
      }
    }
  }

  /** A second call with the same document is a hit: same keywords, cache
      unchanged. */
  lemma SecondCallHits(extract: Extractor, cache: Cache, content: string)
    ensures var first := ExtractCached(extract, cache, content);
      ExtractCached(extract, first.cache, content) == first
  {
  }

  // ---------------------------------------------------------------------
  // Runs of calls.

  /** The cache after extracting `docs` in order from an empty cache,
      corrected eviction. */
  function Feed(extract: Extractor, docs: seq<string>): (r: Cache)
    ensures OM.KeysUnique(r) && |r| <= MaxCacheSize
  {
    if |docs| == 0 then []
    else
      var prev := Feed(extract, docs[..|docs| - 1]);
      CacheStaysBounded(extract, prev, docs[|docs| - 1]);
      ExtractCached(extract, prev, docs[|docs| - 1]).cache
  }

  /** The same run with eviction as written. */
  function FeedAsWritten(extract: Extractor, docs: seq<string>): (r: Cache) {
    if |docs| == 0 then []
    else ExtractCachedAsWritten(extract, FeedAsWritten(extract, docs[..|docs| - 1]), docs[|docs| - 1]).cache
  }

  predicate Distinct(docs: seq<string>) {
    forall i, j :: 0 <= i < j < |docs| ==> docs[i] != docs[j]
  }

  predicate AllShort(docs: seq<string>) {
    forall i :: 0 <= i < |docs| ==> |docs[i]| < ShortContentLimit
  }

  /** Once the empty document is the oldest entry nothing is ever evicted:
      a run of distinct short documents starting with the empty one keeps
      every document's entry, in order. */
  lemma {:induction false} FeedAsWrittenKeepsEveryKey(extract: Extractor, docs: seq<string>)
    requires |docs| >= 1 && docs[0] == ""
    requires Distinct(docs) && AllShort(docs)
    ensures OM.Keys(FeedAsWritten(extract, docs)) == docs
  {
    if |docs| == 1 {
      assert docs[..0] == [];
      AppendStep(extract, [], [], docs[0]);
    } else {
      DistinctShortPrefix(docs);
      FeedAsWrittenKeepsEveryKey(extract, docs[..|docs| - 1]);
      FeedAsWrittenExtends(extract, docs);
    }
  }

  /** The step of the run: the last document's key is appended. */
  lemma FeedAsWrittenExtends(extract: Extractor, docs: seq<string>)
    requires |docs| >= 2 && docs[0] == ""
    requires var pre := docs[..|docs| - 1];
      OM.Keys(FeedAsWritten(extract, pre)) == pre && docs[|docs| - 1] !in pre
    requires |docs[|docs| - 1]| < ShortContentLimit
    ensures OM.Keys(FeedAsWritten(extract, docs)) == docs
  {
    var pre := docs[..|docs| - 1];
    var d := docs[|docs| - 1];
    var prev := FeedAsWritten(extract, pre);
    assert FeedAsWritten(extract, docs) == FeedStep(extract, prev, d);
    assert prev[0].0 == OM.Keys(prev)[0] == pre[0] == "";
    AppendStep(extract, prev, pre, d);
    LastSplit(docs);
  }

  lemma LastSplit(docs: seq<string>)
    requires |docs| >= 1
    ensures docs[..|docs| - 1] + [docs[|docs| - 1]] == docs
  {
  }

  /** One more distinct short document is appended to the keys. */
  lemma AppendStep(extract: Extractor, prev: Cache, pre: seq<string>, d: string)
    requires OM.Keys(prev) == pre && d !in pre && |d| < ShortContentLimit
    requires |prev| >= 1 ==> prev[0].0 == ""
    ensures OM.Keys(FeedStep(extract, prev, d)) == pre + [d]
  {
    NewDocumentMisses(prev, pre, d);
    AsWrittenMissAppends(extract, prev, d);
    KeysAppend(prev, d, extract(d));
  }

  /** Dropping the last document keeps the run's conditions, and the last
      document is not among the others. */
  lemma DistinctShortPrefix(docs: seq<string>)
    requires |docs| >= 2 && docs[0] == "" && Distinct(docs) && AllShort(docs)
    ensures var pre := docs[..|docs| - 1];
      pre[0] == "" && Distinct(pre) && AllShort(pre) && docs[|docs| - 1] !in pre
  {
    var pre := docs[..|docs| - 1];
    assert forall i :: 0 <= i < |pre| ==> pre[i] == docs[i];
  }

  lemma NewDocumentMisses(prev: Cache, pre: seq<string>, d: string)
    requires OM.Keys(prev) == pre && d !in pre
    ensures !OM.HasKey(prev, d)
  {
  }

  /** A miss on a cache whose oldest key is empty appends without evicting. */
  lemma AsWrittenMissAppends(extract: Extractor, prev: Cache, d: string)
    requires |d| < ShortContentLimit && !OM.HasKey(prev, d)
    requires |prev| >= 1 ==> prev[0].0 == ""
    ensures FeedStep(extract, prev, d) == prev + [(d, extract(d))]
  {
  }

  function FeedStep(extract: Extractor, prev: Cache, d: string): Cache {
    ExtractCachedAsWritten(extract, prev, d).cache
  }

  lemma KeysAppend(m: Cache, k: string, v: K.KeywordMap)
    ensures OM.Keys(m + [(k, v)]) == OM.Keys(m) + [k]
  {
  }

  /** The empty document followed by fifty other distinct short documents
      leaves fifty-one entries in a cache meant to hold fifty. */
  lemma EmptyKeyDefeatsBound(extract: Extractor, docs: seq<string>)
    requires |docs| == MaxCacheSize + 1 && docs[0] == ""
    requires Distinct(docs) && AllShort(docs)
    ensures |FeedAsWritten(extract, docs)| == MaxCacheSize + 1
  {
    FeedAsWrittenKeepsEveryKey(extract, docs);
  }
}
