/** An insertion-ordered string-keyed record, the way a plain JavaScript
    object behaves under `obj[key] = value` and object spread: assigning an
    existing key replaces its value in place, a new key goes last. */
module OrderedMap {
  import opened Wrappers

  type Entries<V> = seq<(string, V)>

  predicate KeysUnique<V>(m: Entries<V>) {
    forall i, j :: 0 <= i < j < |m| ==> m[i].0 != m[j].0
  }

  function Keys<V>(m: Entries<V>): (ks: seq<string>)
    ensures |ks| == |m|
    ensures forall i :: 0 <= i < |m| ==> ks[i] == m[i].0
  {
    if |m| == 0 then [] else [m[0].0] + Keys(m[1..])
  }

  predicate HasKey<V>(m: Entries<V>, k: string) {
    k in Keys(m)
  }

  /** `obj[key]`: the value stored under `k`, if any. */
  function Get<V>(m: Entries<V>, k: string): (r: Option<V>)
    ensures r.Some? <==> HasKey(m, k)
  {
    if |m| == 0 then None
    else if m[0].0 == k then
      Some(m[0].1)
    else
      assert Keys(m) == [m[0].0] + Keys(m[1..]);
      Get(m[1..], k)
  }

  /** A value found under `k` is stored in some entry for `k`. */
  lemma {:induction false} GetFindsEntry<V>(m: Entries<V>, k: string)
    ensures Get(m, k).Some? ==> exists i :: 0 <= i < |m| && m[i] == (k, Get(m, k).value)
  {
    if |m| > 0 && m[0].0 != k {
      GetFindsEntry(m[1..], k);
      if Get(m, k).Some? {
        var i :| 0 <= i < |m[1..]| && m[1..][i] == (k, Get(m, k).value);
        assert m[i + 1] == m[1..][i];
      }
    }
  }

  /** `obj[key] = value`. */
  function Put<V>(m: Entries<V>, k: string, v: V): (r: Entries<V>)
    ensures Get(r, k) == Some(v)
    ensures forall k1 :: k1 != k ==> Get(r, k1) == Get(m, k1)
    ensures HasKey(m, k) ==> Keys(r) == Keys(m)
    ensures !HasKey(m, k) ==> r == m + [(k, v)]
  {
    if |m| == 0 then [(k, v)]
    else
      assert m == [m[0]] + m[1..];
      if m[0].0 == k then
        KeysCons(m[0], m[1..]);
        KeysCons((k, v), m[1..]);
        GetCons((k, v), m[1..], k);
        GetsAfterReplace(m[0], (k, v), m[1..]);
        [(k, v)] + m[1..]
      else
        var tail := Put(m[1..], k, v);
        PutCons(m[0], m[1..], tail, k, v);
        [m[0]] + tail
  }

  lemma KeysCons<V>(x: (string, V), t: Entries<V>)
    ensures Keys([x] + t) == [x.0] + Keys(t)
  {
    assert ([x] + t)[1..] == t;
  }

  lemma GetCons<V>(x: (string, V), t: Entries<V>, k: string)
    ensures Get([x] + t, k) == if x.0 == k then Some(x.1) else Get(t, k)
  {
    assert ([x] + t)[1..] == t;
  }

  /** Replacing the value of the first entry leaves the other keys' values. */
  lemma GetsAfterReplace<V>(x: (string, V), y: (string, V), t: Entries<V>)
    requires x.0 == y.0
    ensures forall k1 :: k1 != x.0 ==> Get([y] + t, k1) == Get([x] + t, k1)
  {
    forall k1 | k1 != x.0 ensures Get([y] + t, k1) == Get([x] + t, k1) {
      GetCons(x, t, k1);
      GetCons(y, t, k1);
    }
  }

  /** Assigning behind a different first key keeps that entry in front. */
  lemma PutCons<V>(h: (string, V), t: Entries<V>, tail: Entries<V>, k: string, v: V)
    requires h.0 != k
    requires Get(tail, k) == Some(v)
    requires forall k1 :: k1 != k ==> Get(tail, k1) == Get(t, k1)
    requires HasKey(t, k) ==> Keys(tail) == Keys(t)
    requires !HasKey(t, k) ==> tail == t + [(k, v)]
    ensures Get([h] + tail, k) == Some(v)
    ensures forall k1 :: k1 != k ==> Get([h] + tail, k1) == Get([h] + t, k1)
    ensures HasKey([h] + t, k) ==> Keys([h] + tail) == Keys([h] + t)
    ensures !HasKey([h] + t, k) ==> [h] + tail == [h] + t + [(k, v)]
  {
    GetCons(h, tail, k);
    forall k1 | k1 != k ensures Get([h] + tail, k1) == Get([h] + t, k1) {
      GetCons(h, tail, k1);
      GetCons(h, t, k1);
    }
    KeysCons(h, tail);
    KeysCons(h, t);
  }

  /** Assignment never creates a second entry for a key. */
  lemma PutKeepsKeysUnique<V>(m: Entries<V>, k: string, v: V)
    ensures KeysUnique(m) ==> KeysUnique(Put(m, k, v))
  {
    var r := Put(m, k, v);
    if !KeysUnique(m) {
    } else if HasKey(m, k) {
      assert Keys(r) == Keys(m);
    } else {
      forall i, j | 0 <= i < j < |r| ensures r[i].0 != r[j].0 {
        if j == |m| {
          assert Keys(m)[i] == r[i].0;
        }
      }
    }
  }

  /** Assignment adds no key but the one assigned. */
  lemma PutAddsOnlyItsKey<V>(m: Entries<V>, k: string, v: V)
    ensures forall k1 :: HasKey(Put(m, k, v), k1) ==> k1 == k || HasKey(m, k1)
  {
  }
}
