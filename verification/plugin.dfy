/** The `org-support` plugin: after fumadocs-mdx has built its collections,
    every `doc` collection, and the docs half of every `docs` collection,
    accepts `.org` files on top of what it accepted before. */
module OrgPlugin {
  import opened Text

  /** A built collection, reduced to what the plugin reads and writes: the
      file filter and an opaque remainder carried along. */
  datatype Part<X> = Part(isFileSupported: string -> bool, extra: X)

  datatype Collection<X> =
    | DocCollection(isFileSupported: string -> bool, extra: X)
    | DocsCollection(docs: Part<X>, meta: Part<X>, extra: X)
    | OtherCollection(kind: string, extra: X)

  const PluginName: string := "org-support"

  /** `extendFileSupported`: the original filter, or a `.org` ending. */
  function ExtendFileSupported(original: string -> bool): (r: string -> bool)
    ensures forall p :: r(p) <==> original(p) || EndsWith(p, ".org")
  {
    p => original(p) || EndsWith(p, ".org")
  }

  /** The plugin's `config` hook on one collection. */
  function EnhanceCollection<X>(c: Collection<X>): (r: Collection<X>)
    ensures r.DocCollection? <==> c.DocCollection?
    ensures r.DocsCollection? <==> c.DocsCollection?
    ensures r.extra == c.extra
    ensures c.DocCollection? ==> forall p :: r.isFileSupported(p) <==> c.isFileSupported(p) || EndsWith(p, ".org")
    ensures c.DocsCollection? ==> r.docs.extra == c.docs.extra && r.meta == c.meta
    ensures c.DocsCollection? ==> forall p :: r.docs.isFileSupported(p) <==> c.docs.isFileSupported(p) || EndsWith(p, ".org")
    ensures c.OtherCollection? ==> r == c
  {
    match c
    case DocCollection(f, x) => DocCollection(ExtendFileSupported(f), x)
    case DocsCollection(d, m, x) => DocsCollection(Part(ExtendFileSupported(d.isFileSupported), d.extra), m, x)
    case OtherCollection(_, _) => c
  }

  /** The hook on the whole collection list, in place and in order. */
  function EnhanceCollections<X>(cs: seq<Collection<X>>): (r: seq<Collection<X>>)
    ensures |r| == |cs|
    ensures forall i :: 0 <= i < |cs| ==> r[i] == EnhanceCollection(cs[i])
  {
    seq(|cs|, i requires 0 <= i < |cs| => EnhanceCollection(cs[i]))
  }

  /** The file filter a collection applies to documents. */
  function DocumentFilter<X>(c: Collection<X>): (string -> bool)
    requires !c.OtherCollection?
  {
    if c.DocCollection? then c.isFileSupported else c.docs.isFileSupported
  }

  /** After the plugin, every document collection accepts every `.org`
      path, and still accepts every path it accepted before; a path it
      newly accepts ends in `.org`. */
  lemma AcceptsOrgAndKeepsTheRest<X>(cs: seq<Collection<X>>, i: nat, p: string)
    requires i < |cs| && !cs[i].OtherCollection?
    ensures var r := EnhanceCollections(cs);
      (EndsWith(p, ".org") ==> DocumentFilter(r[i])(p)) &&
      (DocumentFilter(cs[i])(p) ==> DocumentFilter(r[i])(p)) &&
      (DocumentFilter(r[i])(p) && !DocumentFilter(cs[i])(p) ==> EndsWith(p, ".org"))
  {
  }

  /** Running the hook twice accepts the same paths as running it once. */
  lemma EnhanceIdempotent<X>(c: Collection<X>, p: string)
    requires !c.OtherCollection?
    ensures DocumentFilter(EnhanceCollection(EnhanceCollection(c)))(p) == DocumentFilter(EnhanceCollection(c))(p)
  {
  }
}
