/** Sequences without duplicates, and reversal. */
module Seqs {

  ghost predicate Distinct<T>(xs: seq<T>) {
    forall i, j :: 0 <= i < j < |xs| ==> xs[i] != xs[j]
  }

  lemma {:induction false} DistinctCounts<T>(xs: seq<T>)
    requires Distinct(xs)
    ensures forall x :: multiset(xs)[x] <= 1
  {
    if xs != [] {
      DistinctCounts(xs[1..]);
      assert xs == [xs[0]] + xs[1..];
      assert xs[0] !in xs[1..];
    }
  }

  /** Permutations of a duplicate-free sequence are duplicate-free. */
  lemma Distinctness<T>(xs: seq<T>, ys: seq<T>)
    requires multiset(xs) == multiset(ys) && Distinct(xs)
    ensures Distinct(ys)
  {
    DistinctCounts(xs);
    forall i, j | 0 <= i < j < |ys| ensures ys[i] != ys[j] {
      assert ys == ys[..i] + [ys[i]] + ys[i + 1..j] + [ys[j]] + ys[j + 1..];
      assert multiset(ys)[ys[i]] <= 1;
    }
  }

  /** Numbers below `n` without duplicates are at most `n` many. */
  lemma {:induction false} Pigeonhole(xs: seq<nat>, n: nat)
    requires Distinct(xs) && forall i :: 0 <= i < |xs| ==> xs[i] < n
    ensures |xs| <= n
  {
    if xs != [] {
      assert xs[0] < n;
      var last: nat := n - 1;
      if last in xs {
        var k :| 0 <= k < |xs| && xs[k] == last;
        var rest := xs[..k] + xs[k + 1..];
        assert forall i :: 0 <= i < |rest| ==> rest[i] == xs[if i < k then i else i + 1];
        Pigeonhole(rest, last);
      } else {
        assert forall i :: 0 <= i < |xs| ==> xs[i] in xs && xs[i] != last;
        Pigeonhole(xs, last);
      }
    }
  }

  function Reversed<T>(xs: seq<T>): (r: seq<T>)
    ensures |r| == |xs| && forall i :: 0 <= i < |xs| ==> r[i] == xs[|xs| - 1 - i]
  {
    if xs == [] then [] else Reversed(xs[1..]) + [xs[0]]
  }
}
