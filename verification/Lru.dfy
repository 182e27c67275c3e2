/** The `lru` crate's cache as a sequence of entries, least recently used
    first. The byte-bounded and the count-bounded caches are both built on it. */
module Lru {
  import opened Wrappers

  ghost predicate DistinctKeys<K(!new), V(!new)>(es: seq<(K, V)>) {
    forall i, j :: 0 <= i < j < |es| ==> es[i].0 != es[j].0
  }

  ghost predicate Holds<K(!new), V(!new)>(es: seq<(K, V)>, k: K) {
    exists i :: 0 <= i < |es| && es[i].0 == k
  }

  function Find<K(==, !new), V(!new)>(es: seq<(K, V)>, k: K): (r: Option<V>)
    ensures r.Some? <==> Holds(es, k)
    ensures r.Some? ==> (k, r.value) in es
  {
    if es == [] then None
    else if es[0].0 == k then Some(es[0].1)
    else
      var r := Find(es[1..], k);
      assert r.Some? ==> exists i :: 0 <= i < |es[1..]| && es[1..][i].0 == k && es[1..][i] == es[i + 1];
      assert Holds(es, k) ==> exists i :: 1 <= i < |es| && es[i].0 == k && es[i] == es[1..][i - 1];
      r
  }

  function Without<K(==, !new), V(!new)>(es: seq<(K, V)>, k: K): (r: seq<(K, V)>) {
    if es == [] then []
    else (if es[0].0 == k then [] else [es[0]]) + Without(es[1..], k)
  }

  /** What a hit does: the entry becomes the most recently used one. */
  function Touch<K(==, !new), V(!new)>(es: seq<(K, V)>, k: K): (r: seq<(K, V)>) {
    match Find(es, k)
    case None => es
    case Some(v) => Without(es, k) + [(k, v)]
  }

  lemma {:induction false} WithoutMembers<K(!new), V(!new)>(es: seq<(K, V)>, k: K)
    ensures forall e :: e in Without(es, k) <==> e in es && e.0 != k
    ensures !Holds(Without(es, k), k)
    ensures forall l :: l != k ==> (Holds(Without(es, k), l) <==> Holds(es, l))
  {
    if es != [] {
      WithoutMembers(es[1..], k);
    }
    forall l | l != k && Holds(es, l) ensures Holds(Without(es, k), l) {
      var i :| 0 <= i < |es| && es[i].0 == l;
      assert es[i] in Without(es, k);
    }
    forall l | l != k && Holds(Without(es, k), l) ensures Holds(es, l) {
      var i :| 0 <= i < |Without(es, k)| && Without(es, k)[i].0 == l;
      assert Without(es, k)[i] in es;
    }
  }

  lemma {:induction false} WithoutDistinct<K(!new), V(!new)>(es: seq<(K, V)>, k: K)
    requires DistinctKeys(es)
    ensures DistinctKeys(Without(es, k))
  {
    if es != [] {
      WithoutDistinct(es[1..], k);
      WithoutMembers(es[1..], k);
      forall j | 0 <= j < |Without(es[1..], k)| ensures Without(es[1..], k)[j].0 != es[0].0 {
        var e := Without(es[1..], k)[j];
        assert e in Without(es[1..], k);
        assert e in es[1..];
      }
    }
  }

  /** Removing one key cannot change what any other key maps to. */
  lemma {:induction false} WithoutFind<K(!new), V(!new)>(es: seq<(K, V)>, k: K, l: K)
    ensures Find(Without(es, k), l) == if l == k then None else Find(es, l)
  {
    WithoutMembers(es, k);
    if es != [] {
      WithoutFind(es[1..], k, l);
      var w := Without(es[1..], k);
      if es[0].0 == k {
        assert Without(es, k) == w;
      } else {
        assert Without(es, k) == [es[0]] + w;
        assert ([es[0]] + w)[1..] == w;
      }
    }
  }

  lemma {:induction false} FindAppended<K(!new), V(!new)>(es: seq<(K, V)>, k: K, v: V, l: K)
    requires !Holds(es, k)
    ensures Find(es + [(k, v)], l) == if l == k then Some(v) else Find(es, l)
  {
    if es != [] {
      assert (es + [(k, v)])[1..] == es[1..] + [(k, v)];
      assert es[0].0 != k;
      assert forall i :: 0 <= i < |es[1..]| ==> es[1..][i] == es[i + 1];
      FindAppended(es[1..], k, v, l);
    }
  }

  lemma FindAt<K(!new), V(!new)>(es: seq<(K, V)>, i: nat)
    requires DistinctKeys(es) && i < |es|
    ensures Find(es, es[i].0) == Some(es[i].1)
  {
    assert Holds(es, es[i].0);
    var e := (es[i].0, Find(es, es[i].0).value);
    assert e in es;
    var j :| 0 <= j < |es| && es[j] == e;
    assert i == j;
  }

  /** A hit reorders the entries and changes nothing else. */
  lemma TouchKeepsContents<K(!new), V(!new)>(es: seq<(K, V)>, k: K)
    requires DistinctKeys(es)
    ensures DistinctKeys(Touch(es, k))
    ensures forall l :: Find(Touch(es, k), l) == Find(es, l)
  {
    WithoutMembers(es, k);
    WithoutDistinct(es, k);
    if Find(es, k).Some? {
      forall l ensures Find(Touch(es, k), l) == Find(es, l) {
        WithoutFind(es, k, l);
        FindAppended(Without(es, k), k, Find(es, k).value, l);
      }
    }
  }
}
