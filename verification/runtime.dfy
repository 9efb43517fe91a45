/** The Next.js runtime of the package: `doc` and `meta` turn the loader's
    files into page and meta entries by object spread, `docs` pairs them,
    and `createOrgSource`/`resolveFiles` list them as virtual files for
    the fumadocs source, pages first. Records are insertion-ordered maps,
    so spread order and overriding are both visible. */
module Runtime {
  import opened Wrappers
  import OM = OrderedMap

  datatype FileInfo = FileInfo(path: string, fullPath: string)

  /** A record field: a file info, one of the placeholders the runtime
      fills in, or a value from the loader's data. */
  datatype Value<V> = Info(info: FileInfo) | EmptyObject | EmptyArray | NullBody | Data(value: V)

  type Record<V> = OM.Entries<Value<V>>

  datatype RuntimeFile<V> = RuntimeFile(info: FileInfo, data: Record<V>)

  /** `{...m, ...d}`: the fields of `d` assigned onto `m` one by one; keys
      of `m` keep their places, new keys follow in the order of `d`. */
  function Assign<V>(m: Record<V>, d: Record<V>): (r: Record<V>)
    ensures OM.KeysUnique(m) ==> OM.KeysUnique(r)
    ensures |r| >= |m| && forall i :: 0 <= i < |m| ==> r[i].0 == m[i].0
    decreases |d|
  {
    if |d| == 0 then m
    else
      OM.PutKeepsKeysUnique(m, d[0].0, d[0].1);
      PutKeepsPlaces(m, d[0].0, d[0].1);
      Assign(OM.Put(m, d[0].0, d[0].1), d[1..])
  }

  lemma PutKeepsPlaces<V>(m: Record<V>, k: string, v: Value<V>)
    ensures var r := OM.Put(m, k, v); |r| >= |m| && forall i :: 0 <= i < |m| ==> r[i].0 == m[i].0
  {
    var r := OM.Put(m, k, v);
    if OM.HasKey(m, k) {
      assert OM.Keys(r) == OM.Keys(m);
      forall i | 0 <= i < |m| ensures r[i].0 == m[i].0 {
        assert OM.Keys(r)[i] == r[i].0 && OM.Keys(m)[i] == m[i].0;
      }
    }
  }

  /** A field of a spread is the later object's when it has one, the
      earlier object's otherwise. */
  lemma {:induction false} AssignGet<V>(m: Record<V>, d: Record<V>, k: string)
    requires OM.KeysUnique(d)
    ensures OM.Get(Assign(m, d), k) == if OM.HasKey(d, k) then OM.Get(d, k) else OM.Get(m, k)
    decreases |d|
  {
    if |d| > 0 {
      var t := d[1..];
      assert OM.KeysUnique(t) by {
        forall i, j | 0 <= i < j < |t| ensures t[i].0 != t[j].0 {
          assert t[i] == d[i + 1] && t[j] == d[j + 1];
        }
      }
      AssignGet(OM.Put(m, d[0].0, d[0].1), t, k);
      assert OM.Keys(d) == [d[0].0] + OM.Keys(t);
      if k == d[0].0 {
        assert !OM.HasKey(t, k) by {
          forall i | 0 <= i < |t| ensures OM.Keys(t)[i] != k {
            assert OM.Keys(t)[i] == t[i].0 == d[i + 1].0;
          }
        }
      }
    }
  }

  /** The fields a page starts from before its data is spread in. */
  function DocDefaults<V>(): (r: Record<V>)
    ensures OM.KeysUnique(r) && !OM.HasKey(r, "info")
  {
    var r: Record<V> := [("_exports", EmptyObject), ("body", NullBody), ("toc", EmptyArray), ("structuredData", EmptyObject)];
    assert OM.Keys(r) == ["_exports", "body", "toc", "structuredData"];
    r
  }

  /** `doc` on one file: defaults, then the data, then the file's info,
      which therefore always wins. */
  function Doc<V>(f: RuntimeFile<V>): (r: Record<V>)
    ensures OM.Get(r, "info") == Some(Info(f.info))
    ensures OM.KeysUnique(r)
  {
    var spread := Assign(DocDefaults(), f.data);
    OM.PutKeepsKeysUnique(spread, "info", Info(f.info));
    OM.Put(spread, "info", Info(f.info))
  }

  /** Any other field of a page is the data's when the data has it, the
      default otherwise. */
  lemma DocFields<V>(f: RuntimeFile<V>, k: string)
    requires OM.KeysUnique(f.data) && k != "info"
    ensures OM.Get(Doc(f), k) == if OM.HasKey(f.data, k) then OM.Get(f.data, k) else OM.Get(DocDefaults<V>(), k)
  {
    AssignGet(DocDefaults(), f.data, k);
  }

  /** `meta` on one file: the info first, then the data, which may
      override it. */
  function Meta<V>(f: RuntimeFile<V>): (r: Record<V>)
    ensures |r| >= 1 && r[0].0 == "info"
    ensures OM.KeysUnique(r)
  {
    Assign([("info", Info(f.info))], f.data)
  }

  /** A meta entry's fields are the data's; only a missing `info` is
      filled from the file. */
  lemma MetaFields<V>(f: RuntimeFile<V>, k: string)
    requires OM.KeysUnique(f.data)
    ensures OM.Get(Meta(f), k) ==
      if OM.HasKey(f.data, k) then OM.Get(f.data, k)
      else if k == "info" then Some(Info(f.info))
      else None
  {
    AssignGet([("info", Info(f.info))], f.data, k);
  }

  function Docs<V>(files: seq<RuntimeFile<V>>): (r: seq<Record<V>>)
    ensures |r| == |files| && forall i :: 0 <= i < |files| ==> r[i] == Doc(files[i])
  {
    seq(|files|, i requires 0 <= i < |files| => Doc(files[i]))
  }

  function Metas<V>(files: seq<RuntimeFile<V>>): (r: seq<Record<V>>)
    ensures |r| == |files| && forall i :: 0 <= i < |files| ==> r[i] == Meta(files[i])
  {
    seq(|files|, i requires 0 <= i < |files| => Meta(files[i]))
  }

  datatype FileKind = Page | MetaFile

  /** A fumadocs virtual file. The paths are read from the entry's `info`
      and are None when that field is not a file info. */
  datatype VirtualFile<V> = VirtualFile(kind: FileKind, absolutePath: Option<string>, path: Option<string>, data: Record<V>)

  function InfoOf<V>(e: Record<V>): Option<FileInfo> {
    var v := OM.Get(e, "info");
    if v.Some? && v.value.Info? then Some(v.value.info) else None
  }

  function ToVirtual<V>(kind: FileKind, e: Record<V>): (r: VirtualFile<V>)
    ensures r.kind == kind && r.data == e
    ensures InfoOf(e).Some? ==> r.absolutePath == Some(InfoOf(e).value.fullPath) && r.path == Some(InfoOf(e).value.path)
    ensures InfoOf(e).None? ==> r.absolutePath.None? && r.path.None?
  {
    match InfoOf(e)
    case Some(fi) => VirtualFile(kind, Some(fi.fullPath), Some(fi.path), e)
    case None => VirtualFile(kind, None, None, e)
  }

  /** Each entry wrapped as a file of the given kind. */
  function Wrapped<V>(kind: FileKind, es: seq<Record<V>>): seq<VirtualFile<V>> {
    seq(|es|, i requires 0 <= i < |es| => ToVirtual(kind, es[i]))
  }

  /** `resolveFiles` of the runtime: every page entry, then every meta
      entry, each wrapped with its paths. */
  function ResolveFiles<V>(docs: seq<Record<V>>, meta: seq<Record<V>>): (r: seq<VirtualFile<V>>)
    ensures |r| == |docs| + |meta|
    ensures forall i :: 0 <= i < |docs| ==> r[i] == ToVirtual(Page, docs[i])
    ensures forall i :: 0 <= i < |meta| ==> r[|docs| + i] == ToVirtual(MetaFile, meta[i])
  {
    Wrapped(Page, docs) + Wrapped(MetaFile, meta)
  }

  /** `resolveFiles` of the shared types file, with its two loops; it
      lists the same files as the runtime's. */
  method ResolveFilesLoop<V>(docs: seq<Record<V>>, meta: seq<Record<V>>) returns (outputs: seq<VirtualFile<V>>)
    ensures outputs == ResolveFiles(docs, meta)
  {
    outputs := [];
    for i := 0 to |docs|
      invariant |outputs| == i
      invariant forall j :: 0 <= j < i ==> outputs[j] == ToVirtual(Page, docs[j])
    {
      outputs := outputs + [ToVirtual(Page, docs[i])];
    }
    for i := 0 to |meta|
      invariant |outputs| == |docs| + i
      invariant forall j :: 0 <= j < |docs| ==> outputs[j] == ToVirtual(Page, docs[j])
      invariant forall j :: 0 <= j < i ==> outputs[|docs| + j] == ToVirtual(MetaFile, meta[j])
    {
      outputs := outputs + [ToVirtual(MetaFile, meta[i])];
    }
  }

  /** The entries of the virtual files of one kind, in order. */
  function EntriesOfKind<V>(fs: seq<VirtualFile<V>>, kind: FileKind): seq<Record<V>> {
    if |fs| == 0 then []
    else (if fs[0].kind == kind then [fs[0].data] else []) + EntriesOfKind(fs[1..], kind)
  }

  lemma {:induction false} EntriesOfKindAppend<V>(a: seq<VirtualFile<V>>, b: seq<VirtualFile<V>>, kind: FileKind)
    ensures EntriesOfKind(a + b, kind) == EntriesOfKind(a, kind) + EntriesOfKind(b, kind)
    decreases |a|
  {
    if |a| > 0 {
      assert (a + b)[1..] == a[1..] + b;
      EntriesOfKindAppend(a[1..], b, kind);
    } else {
      assert a + b == b;
    }
  }

  /** Files all of one kind give back their entries; those of the other
      kind give nothing. */
  lemma {:induction false} EntriesOfWrapped<V>(es: seq<Record<V>>, kind: FileKind, other: FileKind)
    requires kind != other
    ensures EntriesOfKind(Wrapped(kind, es), kind) == es && EntriesOfKind(Wrapped(kind, es), other) == []
    decreases |es|
  {
    var fs := Wrapped(kind, es);
    if |es| > 0 {
      EntriesOfWrapped(es[1..], kind, other);
      var ft := Wrapped(kind, es[1..]);
      assert fs[1..] == ft;
      assert es == [es[0]] + es[1..];
    }
  }

  /** The listing loses nothing and mixes nothing up: its pages are the
      page entries and its metas the meta entries, in order. */
  lemma ResolveFilesSeparates<V>(docs: seq<Record<V>>, meta: seq<Record<V>>)
    ensures EntriesOfKind(ResolveFiles(docs, meta), Page) == docs
    ensures EntriesOfKind(ResolveFiles(docs, meta), MetaFile) == meta
  {
    var a := seq(|docs|, i requires 0 <= i < |docs| => ToVirtual(Page, docs[i]));
    var b := seq(|meta|, i requires 0 <= i < |meta| => ToVirtual(MetaFile, meta[i]));
    assert ResolveFiles(docs, meta) == a + b;
    EntriesOfKindAppend(a, b, Page);
    EntriesOfKindAppend(a, b, MetaFile);
    EntriesOfWrapped(docs, Page, MetaFile);
    EntriesOfWrapped(meta, MetaFile, Page);
  }

  /** What `docs` returns: both lists, and the source built from them. */
  datatype DocsOut<V> = DocsOut(docs: seq<Record<V>>, meta: seq<Record<V>>)

  function DocsAndMeta<V>(docs: seq<RuntimeFile<V>>, metas: seq<RuntimeFile<V>>): (r: DocsOut<V>)
    ensures |r.docs| == |docs| && |r.meta| == |metas|
  {
    DocsOut(Docs(docs), Metas(metas))
  }

  /** `toFumadocsSource`, which is `createOrgSource` on the two lists. */
  function ToFumadocsSource<V>(d: DocsOut<V>): (r: seq<VirtualFile<V>>)
    ensures |r| == |d.docs| + |d.meta|
  {
    ResolveFiles(d.docs, d.meta)
  }

  /** Every page of the source carries its file's paths; a meta entry
      does too unless its data brought its own `info`. */
  lemma SourcePaths<V>(docs: seq<RuntimeFile<V>>, metas: seq<RuntimeFile<V>>)
    ensures var r := ToFumadocsSource(DocsAndMeta(docs, metas));
      forall i :: 0 <= i < |docs| ==>
        r[i].kind == Page && r[i].absolutePath == Some(docs[i].info.fullPath) && r[i].path == Some(docs[i].info.path)
    ensures var r := ToFumadocsSource(DocsAndMeta(docs, metas));
      forall i :: 0 <= i < |metas| && OM.KeysUnique(metas[i].data) && !OM.HasKey(metas[i].data, "info") ==>
        r[|docs| + i].kind == MetaFile && r[|docs| + i].absolutePath == Some(metas[i].info.fullPath)
  {
    forall i | 0 <= i < |metas| && OM.KeysUnique(metas[i].data) && !OM.HasKey(metas[i].data, "info")
      ensures InfoOf(Meta(metas[i])) == Some(metas[i].info)
    {
      MetaFields(metas[i], "info");
    }
  }
}
