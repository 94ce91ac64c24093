/** The exact paired Wilcoxon test: tie-averaged doubled ranks and the subset-sum distribution of sign assignments. */
module Wilcoxon {
  import opened Primitives
  import opened Sequences
  import opened Sums

  // ----- differences and ranks

  function Abs(x: real): real
  {
    if x < 0.0 then -x else x
  }

  /** The nonzero paired differences, up to the shorter sample. */
  function Differences(left: seq<real>, right: seq<real>): seq<real>
  {
    if left == [] || right == [] then []
    else
      var tail := Differences(left[1..], right[1..]);
      if left[0] != right[0] then [left[0] - right[0]] + tail else tail
  }

  function Below(d: seq<real>, x: real): nat -> nat
  {
    (j: nat) => if j < |d| && Abs(d[j]) < x then 1 else 0
  }

  function NotAbove(d: seq<real>, x: real): nat -> nat
  {
    (j: nat) => if j < |d| && Abs(d[j]) <= x then 1 else 0
  }

  /** Twice the average rank of the positions a magnitude occupies: one plus those below plus those not above it. */
  function DoubledRank(d: seq<real>, i: nat): nat
    requires i < |d|
  {
    1 + UpTo(Below(d, Abs(d[i])), |d|) + UpTo(NotAbove(d, Abs(d[i])), |d|)
  }

  ghost predicate Ordered(d: seq<real>, order: seq<nat>)
  {
    && (forall a: nat :: a < |order| ==> order[a] < |d|)
    && forall a: nat, b: nat :: a < b < |order| ==> Abs(d[order[a]]) <= Abs(d[order[b]])
  }

  ghost predicate SortedBy(d: seq<real>, order: seq<nat>)
  {
    EachOnce(order, |d|) && Ordered(d, order)
  }

  lemma {:induction false} InsertKeepsOrder(d: seq<real>, order: seq<nat>, p: nat, n: nat)
    requires n < |d| && Ordered(d[..n], order) && p <= |order|
    requires p > 0 ==> Abs(d[order[p - 1]]) <= Abs(d[n])
    requires forall k: nat :: p <= k < |order| ==> Abs(d[order[k]]) > Abs(d[n])
    ensures Ordered(d[..n + 1], order[..p] + [n] + order[p..])
  {
    var longer := order[..p] + [n] + order[p..];
    forall a: nat | a < |longer|
      ensures longer[a] == (if a < p then order[a] else if a == p then n else order[a - 1]) && longer[a] < n + 1
      ensures d[..n + 1][longer[a]] == d[longer[a]]
    {
    }
    forall a: nat, b: nat | a < b < |longer|
      ensures Abs(d[..n + 1][longer[a]]) <= Abs(d[..n + 1][longer[b]])
    {
      assert forall k: nat :: k < |order| ==> order[k] < n && d[..n][order[k]] == d[order[k]];
    }
  }

  /** Where the last index goes in the order of the others. */
  method InsertPosition(d: seq<real>, order: seq<nat>, n: nat) returns (p: nat)
    requires n < |d| && Ordered(d[..n], order)
    ensures p <= |order| && (p > 0 ==> Abs(d[order[p - 1]]) <= Abs(d[n]))
    ensures forall k: nat :: p <= k < |order| ==> Abs(d[order[k]]) > Abs(d[n])
  {
    p := |order|;
    while p > 0 && Abs(d[order[p - 1]]) > Abs(d[n])
      invariant p <= |order| && forall k: nat :: p <= k < |order| ==> Abs(d[order[k]]) > Abs(d[n])
    {
      p := p - 1;
    }
  }

  /** The indices sorted by magnitude. */
  method SortByMagnitude(d: seq<real>) returns (order: seq<nat>)
    ensures SortedBy(d, order)
  {
    order := [];
    NothingOnce();
    for n := 0 to |d|
      invariant SortedBy(d[..n], order)
    {
      var p := InsertPosition(d, order, n);
      InsertKeepsOrder(d, order, p, n);
      Inserted(order, order[..p] + [n] + order[p..], p, n);
      order := order[..p] + [n] + order[p..];
    }
    assert d[..|d|] == d;
  }

  /** Within a sorted order, the magnitudes below that of a block are exactly those before it. */
  lemma {:induction false} BlockCounts(d: seq<real>, order: seq<nat>, cursor: nat, end: nat, x: real)
    requires SortedBy(d, order) && cursor <= end <= |order|
    requires forall k: nat :: k < cursor ==> Abs(d[order[k]]) < x
    requires forall k: nat :: cursor <= k < end ==> Abs(d[order[k]]) == x
    requires forall k: nat :: end <= k < |order| ==> Abs(d[order[k]]) > x
    ensures UpTo(Below(d, x), |d|) == cursor && UpTo(NotAbove(d, x), |d|) == end
  {
    PrefixCounts(Below(d, x), order, cursor, |d|);
    PrefixCounts(NotAbove(d, x), order, end, |d|);
  }

  lemma {:induction false} PrefixCounts(weight: nat -> nat, order: seq<nat>, m: nat, n: nat)
    requires EachOnce(order, n) && m <= |order|
    requires forall k: nat :: k < |order| ==> weight(order[k]) == if k < m then 1 else 0
    ensures UpTo(weight, n) == m
  {
    var front, back := order[..m], order[m..];
    assert order == front + back;
    assert forall k: nat :: k < |back| ==> back[k] == order[m + k];
    ConstantWeight(weight, front, 1);
    ConstantWeight(weight, back, 0);
    WeightedConcat(weight, front, back);
    OrderIsIrrelevant(weight, order, n);
  }

  function At(ranks: seq<nat>): nat -> nat
  {
    (i: nat) => if i < |ranks| then ranks[i] else 0
  }

  lemma {:induction false} SameWeights(f: nat -> nat, g: nat -> nat, indices: seq<nat>)
    requires forall i :: i in indices ==> f(i) == g(i)
    ensures Weighted(f, indices) == Weighted(g, indices)
  {
    if indices != [] { SameWeights(f, g, indices[..|indices| - 1]); }
  }

  lemma {:induction false} EqualWeights(f: nat -> nat, indices: seq<nat>, w: nat)
    requires forall i :: i in indices ==> f(i) == w
    ensures Weighted(f, indices) == |indices| * w
  {
    if indices != [] { EqualWeights(f, indices[..|indices| - 1], w); }
  }

  lemma {:induction false} Telescope(c: nat, e: nat)
    requires c <= e
    ensures c * (c + 1) + (e - c) * (c + 1 + e) == e * (e + 1)
  {
  }

  /** Writes one rank to every index of a block. */
  method AssignBlock(ranks: seq<nat>, order: seq<nat>, cursor: nat, end: nat, rank: nat) returns (after: seq<nat>)
    requires EachOnce(order, |ranks|) && cursor <= end <= |order|
    ensures |after| == |ranks|
    ensures forall k: nat :: k < |order| ==>
        order[k] < |ranks| && after[order[k]] == if cursor <= k < end then rank else ranks[order[k]]
  {
    assert forall k: nat :: k < |order| ==> order[k] in order;
    after := ranks;
    for k := cursor to end
      invariant |after| == |ranks|
      invariant forall j: nat :: j < |order| ==> after[order[j]] == if cursor <= j < k then rank else ranks[order[j]]
    {
      after := after[order[k] := rank];
    }
  }

  /** The end of the block of equal magnitudes that starts at `cursor`. */
  method BlockEnd(d: seq<real>, order: seq<nat>, cursor: nat) returns (end: nat)
    requires SortedBy(d, order) && cursor < |order|
    ensures cursor < end <= |order|
    ensures forall k: nat :: cursor <= k < end ==> Abs(d[order[k]]) == Abs(d[order[cursor]])
    ensures forall k: nat :: end <= k < |order| ==> Abs(d[order[k]]) > Abs(d[order[cursor]])
  {
    end := cursor + 1;
    while end < |order| && Abs(d[order[end]]) == Abs(d[order[cursor]])
      invariant cursor < end <= |order| && forall k: nat :: cursor <= k < end ==>
          Abs(d[order[k]]) == Abs(d[order[cursor]])
    {
      end := end + 1;
    }
  }

  /** Everything before `cursor` carries its doubled rank, and those ranks sum to `cursor * (cursor + 1)`. */
  ghost predicate RankedUpTo(d: seq<real>, order: seq<nat>, ranks: seq<nat>, cursor: nat)
  {
    && |ranks| == |d| && cursor <= |order| && SortedBy(d, order)
    && (forall k: nat :: k < cursor ==> ranks[order[k]] == DoubledRank(d, order[k]))
    && (0 < cursor < |order| ==> Abs(d[order[cursor - 1]]) < Abs(d[order[cursor]]))
    && Weighted(At(ranks), order[..cursor]) == cursor * (cursor + 1)
  }

  lemma {:induction false} BlockRanked(d: seq<real>, order: seq<nat>, ranks: seq<nat>, after: seq<nat>, cursor: nat,
                                       end: nat)
    requires RankedUpTo(d, order, ranks, cursor) && cursor < end <= |order| && |after| == |ranks|
    requires forall k: nat :: cursor <= k < end ==> Abs(d[order[k]]) == Abs(d[order[cursor]])
    requires forall k: nat :: end <= k < |order| ==> Abs(d[order[k]]) > Abs(d[order[cursor]])
    requires forall k: nat :: k < |order| ==>
      after[order[k]] == if cursor <= k < end then cursor + 1 + end else ranks[order[k]]
    ensures RankedUpTo(d, order, after, end)
  {
    hide Weighted;
    BlockCounts(d, order, cursor, end, Abs(d[order[cursor]]));
    BlockSum(order, ranks, after, cursor, end);
  }

  lemma {:induction false} BlockSum(order: seq<nat>, ranks: seq<nat>, after: seq<nat>, cursor: nat, end: nat)
    requires cursor < end <= |order| && |after| == |ranks| && forall k: nat :: k < |order| ==> order[k] < |ranks|
    requires forall k: nat :: k < |order| ==>
      after[order[k]] == if cursor <= k < end then cursor + 1 + end else ranks[order[k]]
    requires Weighted(At(ranks), order[..cursor]) == cursor * (cursor + 1)
    ensures Weighted(At(after), order[..end]) == end * (end + 1)
  {
    assert order[..end] == order[..cursor] + order[cursor..end];
    WeightedConcat(At(after), order[..cursor], order[cursor..end]);
    SameWeights(At(after), At(ranks), order[..cursor]);
    EqualWeights(At(after), order[cursor..end], cursor + 1 + end);
    Telescope(cursor, end);
  }

  /** The ranking loop: tie-averaged doubled ranks, which sum to `n * (n + 1)`. */
  method DoubledRanks(d: seq<real>) returns (ranks: seq<nat>)
    ensures |ranks| == |d| && forall i: nat :: i < |d| ==> ranks[i] == DoubledRank(d, i)
    ensures UpTo(At(ranks), |d|) == |d| * (|d| + 1)
  {
    var order := SortByMagnitude(d);
    ranks := seq(|d|, _ => 0);
    OrderIsIrrelevant(At(ranks), order, |d|);
    var cursor := 0;
    while cursor < |order|
      invariant RankedUpTo(d, order, ranks, cursor)
    {
      var end := BlockEnd(d, order, cursor);
      var after := AssignBlock(ranks, order, cursor, end, cursor + 1 + end);
      BlockRanked(d, order, ranks, after, cursor, end);
      ranks, cursor := after, end;
    }
    assert order[..cursor] == order;
    OrderIsIrrelevant(At(ranks), order, |d|);
    forall i: nat | i < |d|
      ensures ranks[i] == DoubledRank(d, i)
    {
      assert i in order;
    }
  }

  // ----- sign assignments

  ghost function Extended(signs: set<seq<bool>>, b: bool): set<seq<bool>>
  {
    set s | s in signs :: s + [b]
  }

  lemma {:induction false} ExtendedSize(signs: set<seq<bool>>, b: bool)
    ensures |Extended(signs, b)| == |signs|
    decreases |signs|
  {
    if signs != {} {
      var s :| s in signs;
      var rest := signs - {s};
      ExtendedSize(rest, b);
      forall t | t in rest
        ensures t + [b] != s + [b]
      {
        assert t == (t + [b])[..|t + [b]| - 1] && s == (s + [b])[..|s + [b]| - 1];
      }
      assert Extended(signs, b) == Extended(rest, b) + {s + [b]};
    }
  }

  /** All assignments of signs to `n` differences. */
  ghost function Signs(n: nat): set<seq<bool>>
  {
    if n == 0 then {[]} else Extended(Signs(n - 1), false) + Extended(Signs(n - 1), true)
  }

  lemma {:induction false} SignsExactly(n: nat)
    ensures forall s: seq<bool> :: s in Signs(n) <==> |s| == n
  {
    if n != 0 {
      SignsExactly(n - 1);
      forall s: seq<bool>
        ensures s in Signs(n) <==> |s| == n
      {
        if |s| == n {
          assert s == s[..n - 1] + [s[n - 1]] && s[..n - 1] in Signs(n - 1);
          assert s in Extended(Signs(n - 1), s[n - 1]);
          assert s[n - 1] == true || s[n - 1] == false;
        }
      }
    }
  }

  lemma {:induction false} SignsCount(n: nat)
    ensures |Signs(n)| == Pow2(n)
  {
    if n != 0 {
      SignsCount(n - 1);
      ExtendedSize(Signs(n - 1), false);
      ExtendedSize(Signs(n - 1), true);
      Disjoint(Signs(n - 1), Signs(n - 1));
    }
  }

  lemma {:induction false} Disjoint(a: set<seq<bool>>, b: set<seq<bool>>)
    ensures |Extended(a, false) + Extended(b, true)| == |Extended(a, false)| + |Extended(b, true)|
  {
    LastSign(a, false);
    LastSign(b, true);
    assert Extended(a, false) !! Extended(b, true);
  }

  lemma {:induction false} LastSign(signs: set<seq<bool>>, b: bool)
    ensures forall s :: s in Extended(signs, b) ==> s != [] && s[|s| - 1] == b
  {
  }

  function PositiveSum(ranks: seq<nat>, signs: seq<bool>): nat
    requires |ranks| == |signs|
  {
    if ranks == [] then 0
    else
      var n := |ranks| - 1;
      PositiveSum(ranks[..n], signs[..n]) + if signs[n] then ranks[n] else 0
  }

  ghost function WithSum(ranks: seq<nat>, t: nat): set<seq<bool>>
  {
    set s | s in Signs(|ranks|) && |s| == |ranks| && PositiveSum(ranks, s) == t
  }

  /** One more rank: the assignments that leave it out and those that take it. */
  lemma {:induction false} OneMoreRank(ranks: seq<nat>, r: nat, t: nat)
    ensures |WithSum(ranks + [r], t)| == |WithSum(ranks, t)| + if t >= r then |WithSum(ranks, t - r)| else 0
  {
    var without, with := WithSum(ranks, t), if t >= r then WithSum(ranks, t - r) else {};
    SplitSets(ranks, r, t, without, with);
    Disjoint(without, with);
    ExtendedSize(without, false);
    ExtendedSize(with, true);
  }

  lemma {:induction false} SplitSets(ranks: seq<nat>, r: nat, t: nat, without: set<seq<bool>>, with: set<seq<bool>>)
    requires without == WithSum(ranks, t) && with == if t >= r then WithSum(ranks, t - r) else {}
    ensures WithSum(ranks + [r], t) == Extended(without, false) + Extended(with, true)
  {
    var n := |ranks|;
    SignsExactly(n);
    SignsExactly(n + 1);
    forall s: seq<bool> | s in WithSum(ranks + [r], t)
      ensures s in Extended(without, false) + Extended(with, true)
    {
      SplitLast(ranks, r, s);
      assert s == s[..n] + [s[n]];
    }
    forall x: seq<bool> | x in without
      ensures x + [false] in WithSum(ranks + [r], t)
    {
      SplitLast(ranks, r, x + [false]);
      assert (x + [false])[..n] == x;
    }
    forall x: seq<bool> | x in with
      ensures x + [true] in WithSum(ranks + [r], t)
    {
      SplitLast(ranks, r, x + [true]);
      assert (x + [true])[..n] == x;
    }
  }

  lemma {:induction false} SplitLast(ranks: seq<nat>, r: nat, s: seq<bool>)
    requires |s| == |ranks| + 1
    ensures PositiveSum(ranks + [r], s) == PositiveSum(ranks, s[..|ranks|]) + if s[|ranks|] then r else 0
  {
    assert (ranks + [r])[..|ranks|] == ranks;
  }

  // ----- the dynamic program

  function Count(distribution: map<nat, nat>, t: nat): nat
  {
    if t in distribution then distribution[t] else 0
  }

  /** What the entries outside `rest` add to `t` when moved up by `rank`. */
  function Moved(distribution: map<nat, nat>, rank: nat, rest: set<nat>, t: nat): nat
  {
    if t >= rank && t - rank !in rest then Count(distribution, t - rank) else 0
  }

  /** One round of the dynamic program, over the entries in any order. */
  method AddRank(distribution: map<nat, nat>, rank: nat) returns (next: map<nat, nat>)
    ensures forall t: nat :: Count(next, t) == Count(distribution, t) + Moved(distribution, rank, {}, t)
  {
    next := distribution;
    var rest := distribution.Keys;
    while rest != {}
      invariant rest <= distribution.Keys
      invariant forall t: nat :: Count(next, t) == Count(distribution, t) + Moved(distribution, rank, rest, t)
      decreases |rest|
    {
      var subtotal: nat :| subtotal in rest;
      next := next[subtotal + rank := Count(next, subtotal + rank) + distribution[subtotal]];
      rest := rest - {subtotal};
    }
  }

  /** The whole program counts, for every rank sum, the sign assignments that reach it. */
  method Distribution(ranks: seq<nat>) returns (distribution: map<nat, nat>)
    ensures forall t: nat :: Count(distribution, t) == |WithSum(ranks, t)|
  {
    distribution := map[0 := 1];
    NoRanks();
    for k := 0 to |ranks|
      invariant forall t: nat :: Count(distribution, t) == |WithSum(ranks[..k], t)|
    {
      assert ranks[..k + 1] == ranks[..k] + [ranks[k]];
      forall t: nat
        ensures |WithSum(ranks[..k + 1], t)| == Count(distribution, t) + Moved(distribution, ranks[k], {}, t)
      {
        OneMoreRank(ranks[..k], ranks[k], t);
      }
      distribution := AddRank(distribution, ranks[k]);
    }
    assert ranks[..|ranks|] == ranks;
  }

  lemma {:induction false} NoRanks()
    ensures forall t: nat :: |WithSum([], t)| == if t == 0 then 1 else 0
  {
    forall t: nat
      ensures |WithSum([], t)| == if t == 0 then 1 else 0
    {
      assert WithSum([], t) == if t == 0 then {[]} else {};
    }
  }

  // ----- the p-value

  function SignsOf(d: seq<real>): seq<bool>
  {
    seq(|d|, i requires 0 <= i < |d| => d[i] > 0.0)
  }

  function RanksOf(d: seq<real>): seq<nat>
  {
    seq(|d|, i requires 0 <= i < |d| => DoubledRank(d, i))
  }

  /** How far a sign assignment's rank sum is from even, doubled. */
  function Deviation(ranks: seq<nat>, signs: seq<bool>): int
    requires |ranks| == |signs|
  {
    var excess := 2 * PositiveSum(ranks, signs) - Sum(ranks);
    if excess < 0 then -excess else excess
  }

  /** The sign assignments at least as extreme as the observed one. */
  ghost function AsExtreme(d: seq<real>): set<seq<bool>>
  {
    set s | s in Signs(|d|) && |s| == |d| && Deviation(RanksOf(d), s) >= Deviation(RanksOf(d), SignsOf(d))
  }

  /** The exact two-sided p-value: the fraction of all `2^n` sign assignments at least as extreme. */
  ghost function PValue(d: seq<real>): real
  {
    |AsExtreme(d)| as real / Pow2(|d|) as real
  }

  lemma {:induction false} PositiveSumBound(ranks: seq<nat>, signs: seq<bool>)
    requires |ranks| == |signs|
    ensures PositiveSum(ranks, signs) <= Sum(ranks)
  {
    if ranks != [] { PositiveSumBound(ranks[..|ranks| - 1], signs[..|ranks| - 1]); }
  }

  function Nearer(t: int, total: int): int
  {
    if t < total - t then t else total - t
  }

  ghost function ExtremeAmong(ranks: seq<nat>, sums: set<nat>, distance: int): set<seq<bool>>
  {
    set s | s in Signs(|ranks|) && |s| == |ranks| && PositiveSum(ranks, s) in sums
        && Nearer(PositiveSum(ranks, s), Sum(ranks)) <= distance
  }

  lemma {:induction false} OneMoreSum(ranks: seq<nat>, sums: set<nat>, t: nat, distance: int)
    requires t !in sums
    ensures |ExtremeAmong(ranks, sums + {t}, distance)|
         == |ExtremeAmong(ranks, sums, distance)| + if Nearer(t, Sum(ranks)) <= distance then |WithSum(ranks, t)| else 0
  {
    var before := ExtremeAmong(ranks, sums, distance);
    var extra := if Nearer(t, Sum(ranks)) <= distance then WithSum(ranks, t) else {};
    assert ExtremeAmong(ranks, sums + {t}, distance) == before + extra;
    assert before !! extra;
  }

  /** The assignments whose smaller side is at most `distance`. */
  ghost function Extremes(ranks: seq<nat>, distance: int): set<seq<bool>>
  {
    set s | s in Signs(|ranks|) && |s| == |ranks| && Nearer(PositiveSum(ranks, s), Sum(ranks)) <= distance
  }

  lemma {:induction false} EverySumIsListed(distribution: map<nat, nat>, ranks: seq<nat>, distance: int)
    requires forall t: nat :: Count(distribution, t) == |WithSum(ranks, t)|
    ensures ExtremeAmong(ranks, distribution.Keys, distance) == Extremes(ranks, distance)
  {
    forall s | s in Signs(|ranks|) && |s| == |ranks|
      ensures PositiveSum(ranks, s) in distribution.Keys
    {
      assert s in WithSum(ranks, PositiveSum(ranks, s));
      assert Count(distribution, PositiveSum(ranks, s)) > 0;
    }
  }

  /** The final sum over the distribution's entries. */
  method CountExtreme(distribution: map<nat, nat>, ranks: seq<nat>, distance: int) returns (count: nat)
    requires forall t: nat :: Count(distribution, t) == |WithSum(ranks, t)|
    ensures count == |Extremes(ranks, distance)|
  {
    count := 0;
    var rest := distribution.Keys;
    ghost var done: set<nat> := {};
    assert ExtremeAmong(ranks, done, distance) == {};
    while rest != {}
      invariant done + rest == distribution.Keys && done !! rest
      invariant count == |ExtremeAmong(ranks, done, distance)|
      decreases |rest|
    {
      var subtotal: nat :| subtotal in rest;
      OneMoreSum(ranks, done, subtotal, distance);
      assert Count(distribution, subtotal) == distribution[subtotal];
      if Nearer(subtotal, Sum(ranks)) <= distance { count := count + distribution[subtotal]; }
      rest, done := rest - {subtotal}, done + {subtotal};
    }
    EverySumIsListed(distribution, ranks, distance);
    assert done == distribution.Keys;
  }

  lemma {:induction false} NearerIsDeviation(ranks: seq<nat>, s: seq<bool>, o: seq<bool>)
    requires |ranks| == |s| == |o|
    ensures Nearer(PositiveSum(ranks, s), Sum(ranks)) <= Nearer(PositiveSum(ranks, o), Sum(ranks))
       <==> Deviation(ranks, s) >= Deviation(ranks, o)
  {
  }

  method ObservedSum(d: seq<real>, ranks: seq<nat>) returns (observed: nat)
    requires ranks == RanksOf(d)
    ensures observed == PositiveSum(ranks, SignsOf(d))
  {
    observed := 0;
    for i := 0 to |d|
      invariant observed == PositiveSum(ranks[..i], SignsOf(d)[..i])
    {
      assert ranks[..i + 1][..i] == ranks[..i] && SignsOf(d)[..i + 1][..i] == SignsOf(d)[..i];
      if d[i] > 0.0 { observed := observed + ranks[i]; }
    }
    assert ranks[..|d|] == ranks && SignsOf(d)[..|d|] == SignsOf(d);
  }

  lemma {:induction false} NextPair(left: seq<real>, right: seq<real>, i: nat)
    requires i < |left| && i < |right|
    ensures Differences(left[i..], right[i..])
         == (if left[i] != right[i] then [left[i] - right[i]] else []) + Differences(left[i + 1..], right[i + 1..])
  {
    assert left[i..][1..] == left[i + 1..] && right[i..][1..] == right[i + 1..];
  }

  /** The loop behind the zip and filter of the paired samples. */
  method NonzeroDifferences(left: seq<real>, right: seq<real>) returns (d: seq<real>)
    ensures d == Differences(left, right)
  {
    d := [];
    var i := 0;
    assert left[0..] == left && right[0..] == right;
    assert Differences(left, right) == d + Differences(left[0..], right[0..]);
    while i < |left| && i < |right|
      invariant i <= |left| && i <= |right|
      invariant Differences(left, right) == d + Differences(left[i..], right[i..])
    {
      NextPair(left, right, i);
      if left[i] != right[i] { d := d + [left[i] - right[i]]; }
      i := i + 1;
    }
    assert left[i..] == [] || right[i..] == [];
  }

  /** `wilcoxon_exact` returns exactly the brute-force fraction. */
  method WilcoxonExact(left: seq<real>, right: seq<real>) returns (p: real)
    ensures p == PValue(Differences(left, right))
  {
    var d := NonzeroDifferences(left, right);
    if d == [] {
      NoDifferences(d);
      return 1.0;
    }
    var ranks := DoubledRanks(d);
    assert ranks == RanksOf(d);
    var observed := ObservedSum(d, ranks);
    var distance := Nearer(observed, Sum(ranks));
    var distribution := Distribution(ranks);
    var count := CountExtreme(distribution, ranks, distance);
    ExtremesAreAsExtreme(d, ranks);
    p := count as real / Pow2(|d|) as real;
  }

  /** Being on the smaller side by as much is deviating by as much. */
  lemma {:induction false} ExtremesAreAsExtreme(d: seq<real>, ranks: seq<nat>)
    requires ranks == RanksOf(d)
    ensures Extremes(ranks, Nearer(PositiveSum(ranks, SignsOf(d)), Sum(ranks))) == AsExtreme(d)
  {
    forall s | s in Signs(|d|) && |s| == |d|
      ensures Nearer(PositiveSum(ranks, s), Sum(ranks)) <= Nearer(PositiveSum(ranks, SignsOf(d)), Sum(ranks))
         <==> Deviation(ranks, s) >= Deviation(ranks, SignsOf(d))
    {
      NearerIsDeviation(ranks, s, SignsOf(d));
    }
  }

  lemma {:induction false} NoDifferences(d: seq<real>)
    requires d == []
    ensures PValue(d) == 1.0
  {
    assert SignsOf(d) == [] && Signs(0) == {[]};
    assert AsExtreme(d) == {[]};
  }

  /** The p-value is positive and at most one. */
  lemma {:induction false} PValueInRange(d: seq<real>)
    ensures 0.0 < PValue(d) <= 1.0
  {
    SignsExactly(|d|);
    SignsCount(|d|);
    assert SignsOf(d) in AsExtreme(d);
    SubsetSize(AsExtreme(d), Signs(|d|));
    FractionInRange(|AsExtreme(d)|, Pow2(|d|));
  }

  lemma {:induction false} SubsetSize(a: set<seq<bool>>, b: set<seq<bool>>)
    requires a <= b
    ensures |a| <= |b|
  {
    assert b == a + (b - a);
  }

  lemma {:induction false} FractionInRange(a: nat, b: nat)
    requires 0 < a <= b
    ensures 0.0 < a as real / b as real <= 1.0
  {
  }

  // ----- swapping the samples

  function Negated(d: seq<real>): seq<real>
  {
    seq(|d|, i requires 0 <= i < |d| => -d[i])
  }

  lemma {:induction false} SwapNegates(left: seq<real>, right: seq<real>)
    ensures Differences(right, left) == Negated(Differences(left, right))
    ensures forall x :: x in Differences(left, right) ==> x != 0.0
  {
    if left != [] && right != [] {
      SwapNegates(left[1..], right[1..]);
      var tail := Differences(left[1..], right[1..]);
      if left[0] != right[0] { assert Negated([left[0] - right[0]] + tail) == [right[0] - left[0]] + Negated(tail); }
    }
  }

  lemma {:induction false} SameMagnitudes(d: seq<real>, x: real, n: nat)
    ensures UpTo(Below(Negated(d), x), n) == UpTo(Below(d, x), n)
        && UpTo(NotAbove(Negated(d), x), n) == UpTo(NotAbove(d, x), n)
  {
    if n != 0 { SameMagnitudes(d, x, n - 1); }
  }

  lemma {:induction false} SameRanks(d: seq<real>)
    ensures RanksOf(Negated(d)) == RanksOf(d)
  {
    forall i: nat | i < |d|
      ensures DoubledRank(Negated(d), i) == DoubledRank(d, i)
    {
      SameMagnitudes(d, Abs(d[i]), |d|);
    }
  }

  lemma {:induction false} FlippedSum(ranks: seq<nat>, a: seq<bool>, b: seq<bool>)
    requires |ranks| == |a| == |b| && forall i: nat :: i < |a| ==> a[i] != b[i]
    ensures PositiveSum(ranks, a) + PositiveSum(ranks, b) == Sum(ranks)
  {
    if ranks != [] {
      var n := |ranks| - 1;
      FlippedSum(ranks[..n], a[..n], b[..n]);
    }
  }

  /** Swapping the samples never changes the p-value. */
  lemma {:induction false} SwapInvariant(left: seq<real>, right: seq<real>)
    ensures PValue(Differences(left, right)) == PValue(Differences(right, left))
  {
    var d := Differences(left, right);
    SwapNegates(left, right);
    SameRanks(d);
    assert forall i: nat :: i < |d| ==> d[i] in d;
    FlippedSum(RanksOf(d), SignsOf(d), SignsOf(Negated(d)));
    assert Deviation(RanksOf(d), SignsOf(Negated(d))) == Deviation(RanksOf(d), SignsOf(d));
    assert AsExtreme(d) == AsExtreme(Negated(d));
  }
}
