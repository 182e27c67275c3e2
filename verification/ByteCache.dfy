/** `ByteLru`: a least-recently-used cache of buffers bounded by their total
    length (src/cache.rs). */
module ByteCache {
  import opened Wrappers
  import opened Bytes
  import opened Lru

  type Entries<K> = seq<(K, seq<byte>)>

  function Total<K(!new)>(es: Entries<K>): (n: nat) {
    if es == [] then 0 else |es[0].1| + Total(es[1..])
  }

  /** Drops least recently used entries until the rest fits. */
  function Evict<K(!new)>(es: Entries<K>, capacity: nat): (r: Entries<K>)
    ensures Total(r) <= capacity
  {
    if Total(es) <= capacity then es else Evict(es[1..], capacity)
  }

  function Inserted<K(==, !new)>(es: Entries<K>, k: K, v: seq<byte>, capacity: nat): (r: Entries<K>) {
    if |v| > capacity then es else Evict(Without(es, k) + [(k, v)], capacity)
  }

  lemma {:induction false} TotalAppend<K(!new)>(a: Entries<K>, b: Entries<K>)
    ensures Total(a + b) == Total(a) + Total(b)
  {
    if a == [] {
      assert a + b == b;
    } else {
      assert (a + b)[1..] == a[1..] + b;
      TotalAppend(a[1..], b);
    }
  }

  lemma {:induction false} TotalWithout<K(!new)>(es: Entries<K>, k: K)
    requires DistinctKeys(es)
    ensures Total(es) == Total(Without(es, k)) + (match Find(es, k) case None => 0 case Some(v) => |v|)
  {
    if es != [] {
      TotalWithout(es[1..], k);
      if es[0].0 == k {
        forall i | 0 <= i < |es[1..]| ensures es[1..][i].0 != k {
          assert es[1..][i] == es[i + 1];
        }
        assert Without(es, k) == Without(es[1..], k);
      } else {
        TotalAppend([es[0]], Without(es[1..], k));
      }
    }
  }

  /** What is dropped is the shortest least-recently-used prefix that
      restores the bound. */
  lemma {:induction false} EvictDropsShortestPrefix<K(!new)>(es: Entries<K>, capacity: nat) returns (n: nat)
    ensures n <= |es| && Evict(es, capacity) == es[n..] && Total(es[n..]) <= capacity
    ensures forall m :: 0 <= m < n ==> Total(es[m..]) > capacity
  {
    if Total(es) <= capacity {
      n := 0;
    } else {
      var rest := EvictDropsShortestPrefix(es[1..], capacity);
      n := rest + 1;
      assert es[1..][rest..] == es[n..];
      forall m | 0 <= m < n ensures Total(es[m..]) > capacity {
        if m == 0 {
          assert es[0..] == es;
        } else {
          assert es[1..][m - 1..] == es[m..];
        }
      }
    }
  }

  /** A suffix of distinct entries finds each of its keys as the whole does. */
  lemma FindInSuffix<K(!new)>(es: Entries<K>, n: nat, k: K)
    requires DistinctKeys(es) && n <= |es|
    ensures DistinctKeys(es[n..])
    ensures Find(es[n..], k) == None || Find(es[n..], k) == Find(es, k)
  {
    var rest := es[n..];
    assert forall i :: 0 <= i < |rest| ==> rest[i] == es[n + i];
    if Holds(rest, k) {
      var i :| 0 <= i < |rest| && rest[i].0 == k;
      FindAt(rest, i);
      FindAt(es, n + i);
    }
  }

  /** An accepted insert leaves the new value in place, evicts only other
      keys, and changes no value that stays. */
  lemma InsertEffect<K(!new)>(es: Entries<K>, k: K, v: seq<byte>, capacity: nat)
    requires DistinctKeys(es)
    ensures DistinctKeys(Inserted(es, k, v, capacity))
    ensures |v| <= capacity ==> Find(Inserted(es, k, v, capacity), k) == Some(v)
    ensures |v| <= capacity ==> Total(Inserted(es, k, v, capacity)) <= capacity
    ensures forall l :: l != k && Find(Inserted(es, k, v, capacity), l).Some? ==>
                          Find(Inserted(es, k, v, capacity), l) == Find(es, l)
  {
    if |v| <= capacity {
      WithoutMembers(es, k);
      WithoutDistinct(es, k);
      var pushed := Without(es, k) + [(k, v)];
      var n := EvictDropsShortestPrefix(pushed, capacity);
      // The newest entry alone always fits, so it is never the one to go.
      assert pushed[|pushed| - 1..] == [(k, v)] && Total([(k, v)]) == |v|;
      assert n < |pushed|;
      forall l ensures Find(pushed[n..], l).Some? && l != k ==> Find(pushed[n..], l) == Find(es, l) {
        FindInSuffix(pushed, n, l);
        FindAppended(Without(es, k), k, v, l);
        WithoutFind(es, k, l);
      }
      FindInSuffix(pushed, n, k);
      FindAt(pushed[n..], |pushed| - 1 - n);
    }
  }

  class ByteLru<K(==, !new)> {
    /** Least recently used first, as the `lru` crate keeps them. */
    var entries: Entries<K>
    var bytes: nat
    const capacity: nat

    ghost predicate Valid()
      reads this
    {
      DistinctKeys(entries) && bytes == Total(entries) && bytes <= capacity
    }

    constructor (capacityBytes: nat)
      ensures Valid() && entries == [] && capacity == capacityBytes
    {
      entries, bytes, capacity := [], 0, capacityBytes;
    }

    method Get(key: K) returns (r: Option<seq<byte>>)
      requires Valid()
      modifies this
      ensures Valid()
      ensures r == old(Find(entries, key)) && entries == old(Touch(entries, key))
      ensures forall l :: Find(entries, l) == old(Find(entries, l))
    {
      TouchKeepsContents(entries, key);
      TotalWithout(entries, key);
      r := Find(entries, key);
      if r.Some? {
        TotalAppend(Without(entries, key), [(key, r.value)]);
        entries := Without(entries, key) + [(key, r.value)];
      }
    }

    method Insert(key: K, value: seq<byte>)
      requires Valid()
      modifies this
      ensures Valid()
      ensures entries == old(Inserted(entries, key, value, capacity))
    {
      if |value| > capacity {
        return;
      }
      InsertEffect(entries, key, value, capacity);
      WithoutMembers(entries, key);
      WithoutDistinct(entries, key);
      TotalWithout(entries, key);
      TotalAppend(Without(entries, key), [(key, value)]);
      var replaced := Find(entries, key);
      entries := Without(entries, key) + [(key, value)];
      if replaced.Some? {
        bytes := bytes - |replaced.value|;
      }
      bytes := bytes + |value|;
      ghost var pushed := entries;
      while bytes > capacity
        invariant bytes == Total(entries) && DistinctKeys(entries)
        invariant Evict(pushed, capacity) == Evict(entries, capacity)
        decreases |entries|
      {
        if entries == [] {
          break;
        }
        bytes := bytes - |entries[0].1|;
        entries := entries[1..];
      }
    }
  }

  // ---- whole runs --------------------------------------------------------

  datatype Op<K> = Get(key: K) | Put(key: K, value: seq<byte>)

  function Apply<K(==, !new)>(es: Entries<K>, op: Op<K>, capacity: nat): Entries<K> {
    match op
    case Get(k) => Touch(es, k)
    case Put(k, v) => Inserted(es, k, v, capacity)
  }

  /** The contents after running `ops` on an empty cache. */
  function Run<K(==, !new)>(ops: seq<Op<K>>, capacity: nat): Entries<K> {
    if ops == [] then [] else Apply(Run(ops[..|ops| - 1], capacity), ops[|ops| - 1], capacity)
  }

  /** The last value the cache accepted for `k`, by reading the run alone. */
  function LastAccepted<K(==, !new)>(ops: seq<Op<K>>, k: K, capacity: nat): Option<seq<byte>> {
    if ops == [] then None
    else
      var op := ops[|ops| - 1];
      if op.Put? && op.key == k && |op.value| <= capacity then Some(op.value)
      else LastAccepted(ops[..|ops| - 1], k, capacity)
  }

  /** One past the last step that looked `k` up or stored it; 0 if none did. */
  function LastUse<K(==, !new)>(ops: seq<Op<K>>, k: K, capacity: nat): (n: nat)
    ensures n <= |ops|
  {
    if ops == [] then 0
    else
      var op := ops[|ops| - 1];
      if op.key == k && (op.Get? || |op.value| <= capacity) then |ops|
      else LastUse(ops[..|ops| - 1], k, capacity)
  }

  /** In every run the held bytes fit, and a hit returns the last accepted
      value of its key. */
  lemma {:induction false} RunKeepsBoundAndValues<K(!new)>(ops: seq<Op<K>>, capacity: nat)
    ensures DistinctKeys(Run(ops, capacity)) && Total(Run(ops, capacity)) <= capacity
    ensures forall k :: Find(Run(ops, capacity), k).Some? ==>
                          Find(Run(ops, capacity), k) == LastAccepted(ops, k, capacity)
  {
    if ops != [] {
      var prev := Run(ops[..|ops| - 1], capacity);
      RunKeepsBoundAndValues(ops[..|ops| - 1], capacity);
      match ops[|ops| - 1]
      case Get(k) =>
        TouchKeepsContents(prev, k);
        TotalWithout(prev, k);
        if Find(prev, k).Some? {
          TotalAppend(Without(prev, k), [(k, Find(prev, k).value)]);
        }
      case Put(k, v) =>
        InsertEffect(prev, k, v, capacity);
    }
  }

  ghost predicate ByRecency<K(!new)>(es: Entries<K>, ops: seq<Op<K>>, capacity: nat) {
    forall i, j :: 0 <= i < j < |es| ==> LastUse(ops, es[i].0, capacity) < LastUse(ops, es[j].0, capacity)
  }

  lemma {:induction false} WithoutKeepsRecency<K(!new)>(es: Entries<K>, k: K, ops: seq<Op<K>>, capacity: nat)
    requires ByRecency(es, ops, capacity)
    ensures ByRecency(Without(es, k), ops, capacity)
  {
    if es != [] {
      WithoutKeepsRecency(es[1..], k, ops, capacity);
      WithoutMembers(es[1..], k);
      var w := Without(es[1..], k);
      forall j | 0 <= j < |w| ensures LastUse(ops, es[0].0, capacity) < LastUse(ops, w[j].0, capacity) {
        assert w[j] in w;
        assert w[j] in es[1..];
      }
    }
  }

  lemma LastUseSnoc<K(!new)>(before: seq<Op<K>>, op: Op<K>, k: K, capacity: nat)
    ensures LastUse(before + [op], k, capacity)
         == if op.key == k && (op.Get? || |op.value| <= capacity) then |before| + 1 else LastUse(before, k, capacity)
  {
    assert (before + [op])[..|before|] == before;
  }

  lemma PushKeepsRecency<K(!new)>(es: Entries<K>, before: seq<Op<K>>, op: Op<K>, v: seq<byte>, capacity: nat)
    requires ByRecency(es, before, capacity) && (op.Get? || |op.value| <= capacity)
    ensures ByRecency(Without(es, op.key) + [(op.key, v)], before + [op], capacity)
  {
    var w := Without(es, op.key);
    WithoutKeepsRecency(es, op.key, before, capacity);
    WithoutMembers(es, op.key);
    LastUseSnoc(before, op, op.key, capacity);
    forall i | 0 <= i < |w|
      ensures LastUse(before + [op], w[i].0, capacity) == LastUse(before, w[i].0, capacity) <= |before|
    {
      assert w[i] in w;
      LastUseSnoc(before, op, w[i].0, capacity);
    }
  }

  lemma MissKeepsRecency<K(!new)>(es: Entries<K>, before: seq<Op<K>>, op: Op<K>, capacity: nat)
    requires ByRecency(es, before, capacity)
    requires (op.Put? && |op.value| > capacity) || (op.Get? && !Holds(es, op.key))
    ensures ByRecency(es, before + [op], capacity)
  {
    forall i | 0 <= i < |es| ensures LastUse(before + [op], es[i].0, capacity) == LastUse(before, es[i].0, capacity) {
      LastUseSnoc(before, op, es[i].0, capacity);
    }
  }

  /** Entries stay ordered by last use, so every eviction takes the entry
      used longest ago. */
  lemma {:induction false} RunOrdersByRecency<K(!new)>(ops: seq<Op<K>>, capacity: nat)
    ensures ByRecency(Run(ops, capacity), ops, capacity)
  {
    if ops != [] {
      var before, op := ops[..|ops| - 1], ops[|ops| - 1];
      var prev := Run(before, capacity);
      RunOrdersByRecency(before, capacity);
      assert ops == before + [op];
      if op.Put? && |op.value| <= capacity {
        PushKeepsRecency(prev, before, op, op.value, capacity);
        var n := EvictDropsShortestPrefix(Without(prev, op.key) + [(op.key, op.value)], capacity);
      } else if op.Get? && Find(prev, op.key).Some? {
        PushKeepsRecency(prev, before, op, Find(prev, op.key).value, capacity);
      } else {
        MissKeepsRecency(prev, before, op, capacity);
      }
    }
  }
}
