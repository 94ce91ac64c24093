/** Sums over index sequences, and permutations of the first `n` indices. */
module Sums {
  import opened Sequences

  function Weighted(weight: nat -> nat, indices: seq<nat>): nat
  {
    if indices == [] then 0 else Weighted(weight, indices[..|indices| - 1]) + weight(indices[|indices| - 1])
  }

  function UpTo(weight: nat -> nat, n: nat): nat
  {
    if n == 0 then 0 else UpTo(weight, n - 1) + weight(n - 1)
  }

  /** Every index below `n` exactly once, and nothing else. */
  ghost predicate EachOnce(indices: seq<nat>, n: nat)
  {
    NoRepeats(indices) && forall i: nat :: i in indices <==> i < n
  }

  lemma {:induction false} WeightedConcat(weight: nat -> nat, a: seq<nat>, b: seq<nat>)
    ensures Weighted(weight, a + b) == Weighted(weight, a) + Weighted(weight, b)
    decreases |b|
  {
    if b == [] {
      assert a + b == a;
    } else {
      assert (a + b)[..|a + b| - 1] == a + b[..|b| - 1];
      WeightedConcat(weight, a, b[..|b| - 1]);
    }
  }

  /** Summing in any order gives the same total. */
  lemma {:induction false} OrderIsIrrelevant(weight: nat -> nat, indices: seq<nat>, n: nat)
    requires EachOnce(indices, n)
    ensures Weighted(weight, indices) == UpTo(weight, n) && |indices| == n
    decreases n
  {
    if n == 0 {
      FirstIsMember(indices);
    } else {
      assert n - 1 in indices;
      var p: nat :| p < |indices| && indices[p] == n - 1;
      WeightedWithout(weight, indices, p);
      RemovedOnce(indices, p, n);
      OrderIsIrrelevant(weight, Without(indices, p), n - 1);
    }
  }

  function Without(indices: seq<nat>, p: nat): (rest: seq<nat>)
    requires p < |indices|
    ensures |rest| == |indices| - 1
  {
    indices[..p] + indices[p + 1..]
  }

  lemma {:induction false} WeightedWithout(weight: nat -> nat, indices: seq<nat>, p: nat)
    requires p < |indices|
    ensures Weighted(weight, indices) == Weighted(weight, Without(indices, p)) + weight(indices[p])
  {
    var before, after := indices[..p], indices[p + 1..];
    assert indices == before + [indices[p]] + after;
    WeightedConcat(weight, before + [indices[p]], after);
    WeightedConcat(weight, before, [indices[p]]);
    WeightedConcat(weight, before, after);
  }

  lemma {:induction false} RemovedOnce(indices: seq<nat>, p: nat, n: nat)
    requires EachOnce(indices, n) && p < |indices| && n > 0 && indices[p] == n - 1
    ensures EachOnce(Without(indices, p), n - 1)
  {
    var rest := Without(indices, p);
    forall k: nat | k < |rest|
      ensures rest[k] == indices[if k < p then k else k + 1] && rest[k] in indices && rest[k] != n - 1
    {
    }
    forall i: nat | i < n - 1
      ensures i in rest
    {
      assert i in indices;
      var k: nat :| k < |indices| && indices[k] == i;
      assert rest[if k < p then k else k - 1] == i;
    }
  }

  lemma {:induction false} UpToGrows(f: nat -> nat, m: nat, n: nat)
    requires m <= n
    ensures UpTo(f, m) <= UpTo(f, n)
  {
    if m < n { UpToGrows(f, m, n - 1); }
  }

  lemma {:induction false} NothingOnce()
    ensures EachOnce([], 0)
  {
  }

  lemma {:induction false} Inserted(all: seq<nat>, longer: seq<nat>, p: nat, n: nat)
    requires EachOnce(all, n) && p <= |all| && |longer| == |all| + 1
    requires longer == all[..p] + [n] + all[p..]
    ensures EachOnce(longer, n + 1)
  {
    assert forall k: nat :: k < p ==> longer[k] == all[k] && all[k] in all;
    assert forall k: nat :: p < k < |longer| ==> longer[k] == all[k - 1] && all[k - 1] in all;
    forall a: nat, b: nat | a < b < |longer|
      ensures longer[a] != longer[b]
    {
    }
    forall i: nat
      ensures i in longer <==> i < n + 1
    {
      if i < n {
        assert i in all;
        var k: nat :| k < |all| && all[k] == i;
        assert longer[if k < p then k else k + 1] == i;
      }
      assert longer[p] == n;
    }
  }

  lemma {:induction false} ConstantWeight(weight: nat -> nat, indices: seq<nat>, w: nat)
    requires w <= 1 && forall i :: i in indices ==> weight(i) == w
    ensures Weighted(weight, indices) == if w == 0 then 0 else |indices|
  {
    if indices != [] { ConstantWeight(weight, indices[..|indices| - 1], w); }
  }

  lemma {:induction false} NothingBeyond(weight: nat -> nat, m: nat, n: nat)
    requires m <= n && forall i: nat :: m <= i < n ==> weight(i) == 0
    ensures UpTo(weight, n) == UpTo(weight, m)
  {
    if m < n { NothingBeyond(weight, m, n - 1); }
  }
}
