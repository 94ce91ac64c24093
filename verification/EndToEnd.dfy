/**
 * From accepted leaves to an anchored epoch: any stretch of a chained run that shares an epoch and a
 * policy pair aggregates, at every level of the tree, to the root transition of its whole set of lots.
 */
module EndToEnd {
  import opened Primitives
  import opened Digests
  import opened PolicyTypes
  import opened Sequences
  import opened Epoch
  import opened ReductionTree
  import Merkle
  import Policy
  import SparseNullifiers
  import NoLotTwice
  import Disclosure

  /** The leaves a run publishes, as children of an aggregation. */
  ghost function Published(env: Policy.Env, run: seq<Policy.PolicyInput>): (leaves: seq<EpochChild>)
    requires NoLotTwice.AllAccepted(env, run)
    ensures |leaves| == |run|
  {
    if run == [] then []
    else
      var n := |run| - 1;
      assert forall k: nat :: k < n ==> run[..n][k] == run[k];
      Published(env, run[..n]) + [Leaf(Disclosure.LeafAbi(Policy.Evaluate(env, run[n]).value))]
  }

  /** The nullifier indices of the first `n` leaves. */
  ghost function Indices(env: Policy.Env, run: seq<Policy.PolicyInput>, n: nat): set<nat>
    requires n <= |run|
  {
    if n == 0 then {} else Indices(env, run, n - 1) + {IndexOf(env, run[n - 1])}
  }

  function IndexOf(env: Policy.Env, input: Policy.PolicyInput): nat
  {
    Policy.NullifierIndex(env, input.lotId, input.nullifierKey)
  }

  ghost predicate SameEpoch(run: seq<Policy.PolicyInput>, i: nat, j: nat)
    requires i <= j <= |run|
  {
    forall k: nat :: i <= k < j ==>
      && run[k].epochId == run[i].epochId && run[k].certificateRoot == run[i].certificateRoot
      && run[k].polygonNonce == run[i].polygonNonce && run[k].polygon == run[i].polygon
  }

  // ----- index sets

  lemma {:induction false} IndexIsBounded(env: Policy.Env, lot: U64, key: Digest)
    requires Policy.ValidEnv(env)
    ensures Policy.NullifierIndex(env, lot, key) < Pow2(env.depth)
  {
    var digest := Policy.Nullifier(lot, key);
    assert 8 * |env.bytesOf(digest)| == env.depth;
    SparseNullifiers.BigEndianBound(env.bytesOf(digest));
  }

  lemma {:induction false} IndicesBounded(env: Policy.Env, run: seq<Policy.PolicyInput>, n: nat)
    requires Policy.ValidEnv(env) && n <= |run|
    ensures forall x :: x in Indices(env, run, n) ==> x < Pow2(env.depth)
  {
    if n != 0 {
      IndicesBounded(env, run, n - 1);
      IndexIsBounded(env, run[n - 1].lotId, run[n - 1].nullifierKey);
    }
  }

  lemma {:induction false} IndicesGrow(env: Policy.Env, run: seq<Policy.PolicyInput>, m: nat, n: nat)
    requires m <= n <= |run|
    ensures Indices(env, run, m) <= Indices(env, run, n)
  {
    if m < n { IndicesGrow(env, run, m, n - 1); }
  }

  lemma {:induction false} IndicesOfPrefix(env: Policy.Env, run: seq<Policy.PolicyInput>, m: nat, n: nat)
    requires n <= m <= |run|
    ensures Indices(env, run[..m], n) == Indices(env, run, n)
  {
    if n != 0 { IndicesOfPrefix(env, run, m, n - 1); }
  }

  // ----- what each leaf publishes

  /** The first event of the batch names the lot. */
  ghost predicate NamesLot(env: Policy.Env, input: Policy.PolicyInput)
  {
    && input.events != [] && |input.events[0].eventBytes| == EVENT_BYTES
    && Policy.DecodeEvent(env, input.events[0].eventBytes).Ok?
    && Policy.DecodeEvent(env, input.events[0].eventBytes).value.lotId == input.lotId
  }

  /** Leaf `k` is acceptable and commits to its input. */
  ghost predicate LeafFacts(env: Policy.Env, keys: Keys, run: seq<Policy.PolicyInput>, leaves: seq<EpochChild>, k: nat)
    requires k < |leaves| == |run|
  {
    leaves[k].Leaf? && ChildOk(keys, leaves[k]) && Disclosure.Commits(run[k], leaves[k].words) && NamesLot(env, run[k])
  }

  /** Leaf `k` moves the root by exactly its own new index. */
  ghost predicate RootFacts(env: Policy.Env, run: seq<Policy.PolicyInput>, leaves: seq<EpochChild>, k: nat)
    requires k < |leaves| == |run|
  {
    && IndexOf(env, run[k]) !in Indices(env, run, k)
    && OldOf(leaves[k]) == SparseNullifiers.SetRoot(env.depth, Indices(env, run, k))
    && NewOf(leaves[k]) == SparseNullifiers.SetRoot(env.depth, Indices(env, run, k + 1))
  }

  ghost predicate AllFacts(env: Policy.Env, keys: Keys, run: seq<Policy.PolicyInput>, leaves: seq<EpochChild>)
    requires |leaves| == |run|
  {
    && (forall k: nat :: k < |run| ==> LeafFacts(env, keys, run, leaves, k))
    && (forall k: nat :: k < |run| ==> RootFacts(env, run, leaves, k))
  }

  lemma {:induction false} AdjacentRoots(env: Policy.Env, run: seq<Policy.PolicyInput>, k: nat)
    requires NoLotTwice.ChainedRun(env, run) && k < |run|
    ensures k == 0 ==> Policy.Evaluate(env, run[k]).value.oldNullifierRoot == SparseNullifiers.SetRoot(env.depth, {})
    ensures k > 0 ==>
        Policy.Evaluate(env, run[k]).value.oldNullifierRoot == Policy.Evaluate(env, run[k - 1]).value.newNullifierRoot
  {
    var chain := NoLotTwice.ChainOf(env, run);
    assert chain[k] == NoLotTwice.StepOf(env, run[k]);
    if k > 0 { assert chain[k - 1] == NoLotTwice.StepOf(env, run[k - 1]); }
  }

  lemma {:induction false} ChainedPrefix(env: Policy.Env, run: seq<Policy.PolicyInput>, n: nat)
    requires NoLotTwice.ChainedRun(env, run) && n <= |run|
    ensures NoLotTwice.ChainedRun(env, run[..n])
  {
    assert forall k: nat :: k < n ==> run[..n][k] == run[k];
    assert NoLotTwice.ChainOf(env, run[..n]) == NoLotTwice.ChainOf(env, run)[..n];
  }

  lemma {:induction false} AcceptedNamesLot(env: Policy.Env, input: Policy.PolicyInput)
    requires Policy.WellFormed(env, input) && Policy.Accepted(env, input)
    ensures NamesLot(env, input)
  {
    assert Policy.EventAccepted(env, input, 0);
    assert input.events[0] in input.events;
  }

  lemma {:induction false} LeafAbiWords(v: Policy.PolicyPublicValues)
    ensures var w := Disclosure.LeafAbi(v);
      && w[0] == Raw(v.epochId) && w[1] == v.oldNullifierRoot && w[2] == v.newNullifierRoot && w[7] == Raw(v.role)
      && w[8] == Raw(v.threshold) && w[9] == Raw(v.eventCount) && w[10] == Raw(if v.valid then 1 else 0)
  {
  }

  /** One accepted leaf that starts from the root of a set of indices. */
  lemma {:induction false} AcceptedLeaf(env: Policy.Env, keys: Keys, input: Policy.PolicyInput, used: set<nat>)
    requires Policy.ValidEnv(env) && Policy.WellFormed(env, input) && Policy.Evaluate(env, input).Ok?
    requires Policy.Evaluate(env, input).value.oldNullifierRoot == SparseNullifiers.SetRoot(env.depth, used)
    requires forall x :: x in used ==> x < Pow2(env.depth)
    ensures var c := Leaf(Disclosure.LeafAbi(Policy.Evaluate(env, input).value));
      && ChildOk(keys, c) && Disclosure.Commits(input, c.words) && IndexOf(env, input) !in used
      && OldOf(c) == SparseNullifiers.SetRoot(env.depth, used)
      && NewOf(c) == SparseNullifiers.SetRoot(env.depth, used + {IndexOf(env, input)})
    ensures NamesLot(env, input)
  {
    Disclosure.EvaluatedLeafCommits(env, input);
    Policy.EvaluateAcceptsExactly(env, input);
    AcceptedNamesLot(env, input);
    LeafAbiWords(Policy.Evaluate(env, input).value);
    NoLotTwice.AcceptedLeafAddsUnused(env, input);
    IndexIsBounded(env, input.lotId, input.nullifierKey);
    SparseNullifiers.RootIdentifiesSet(env.depth, used, used + {IndexOf(env, input)});
  }

  /** The last leaf of a run, given the root its predecessors ended in. */
  lemma {:induction false} LastLeaf(env: Policy.Env, keys: Keys, run: seq<Policy.PolicyInput>)
    requires Policy.ValidEnv(env) && NoLotTwice.ChainedRun(env, run) && run != []
    requires |run| > 1 ==>
      Policy.Evaluate(env, run[|run| - 2]).value.newNullifierRoot
          == SparseNullifiers.SetRoot(env.depth, Indices(env, run, |run| - 1))
    ensures LeafFacts(env, keys, run, Published(env, run), |run| - 1)
        && RootFacts(env, run, Published(env, run), |run| - 1)
    ensures Policy.Evaluate(env, run[|run| - 1]).value.newNullifierRoot
        == SparseNullifiers.SetRoot(env.depth, Indices(env, run, |run|))
  {
    var n := |run| - 1;
    AdjacentRoots(env, run, n);
    IndicesBounded(env, run, n);
    AcceptedLeaf(env, keys, run[n], Indices(env, run, n));
    LeafAbiWords(Policy.Evaluate(env, run[n]).value);
  }

  lemma {:induction false} RunFacts(env: Policy.Env, keys: Keys, run: seq<Policy.PolicyInput>)
    requires Policy.ValidEnv(env) && NoLotTwice.ChainedRun(env, run)
    ensures AllFacts(env, keys, run, Published(env, run))
    ensures run != [] ==>
      Policy.Evaluate(env, run[|run| - 1]).value.newNullifierRoot
          == SparseNullifiers.SetRoot(env.depth, Indices(env, run, |run|))
  {
    if run != [] {
      var n := |run| - 1;
      ChainedPrefix(env, run, n);
      RunFacts(env, keys, run[..n]);
      IndicesOfPrefix(env, run, n, n);
      assert n > 0 ==> run[..n][n - 1] == run[n - 1];
      LastLeaf(env, keys, run);
      FactsGrow(env, keys, run, Published(env, run[..n]), Published(env, run), n);
    }
  }

  lemma {:induction false} FactsGrow(env: Policy.Env, keys: Keys, run: seq<Policy.PolicyInput>,
                                     before: seq<EpochChild>, leaves: seq<EpochChild>, n: nat)
    requires n + 1 == |run| == |leaves| && |before| == n && before == leaves[..n]
    requires AllFacts(env, keys, run[..n], before)
    requires LeafFacts(env, keys, run, leaves, n) && RootFacts(env, run, leaves, n)
    ensures AllFacts(env, keys, run, leaves)
  {
    hide LeafFacts;
    hide RootFacts;
    forall k: nat | k < n
      ensures LeafFacts(env, keys, run, leaves, k) && RootFacts(env, run, leaves, k)
    {
      assert LeafFacts(env, keys, run[..n], before, k) && RootFacts(env, run[..n], before, k);
      FactsCarryOver(env, keys, run, before, leaves, n, k);
    }
  }

  lemma {:induction false} FactsCarryOver(env: Policy.Env, keys: Keys, run: seq<Policy.PolicyInput>,
                                          before: seq<EpochChild>, leaves: seq<EpochChild>, n: nat, k: nat)
    requires k < n < |run| == |leaves| && |before| == n && before == leaves[..n]
    requires LeafFacts(env, keys, run[..n], before, k) && RootFacts(env, run[..n], before, k)
    ensures LeafFacts(env, keys, run, leaves, k) && RootFacts(env, run, leaves, k)
  {
    IndicesOfPrefix(env, run, n, k);
    IndicesOfPrefix(env, run, n, k + 1);
    assert leaves[k] == before[k] && run[k] == run[..n][k];
  }

  // ----- the conditions of the reduction

  /** An index set never comes back once the run has gone past it. */
  lemma {:induction false} IndicesNeverRepeat(env: Policy.Env, run: seq<Policy.PolicyInput>, a: nat, b: nat)
    requires Policy.ValidEnv(env) && a <= b < |run| && IndexOf(env, run[a]) !in Indices(env, run, a)
    ensures SparseNullifiers.SetRoot(env.depth, Indices(env, run, a))
        != SparseNullifiers.SetRoot(env.depth, Indices(env, run, b + 1))
  {
    IndicesGrow(env, run, a + 1, b + 1);
    assert IndexOf(env, run[a]) in Indices(env, run, a + 1);
    IndicesBounded(env, run, a);
    IndicesBounded(env, run, b + 1);
    SparseNullifiers.RootIdentifiesSet(env.depth, Indices(env, run, a), Indices(env, run, b + 1));
  }

  /** A commitment pins the first event's bytes. */
  lemma {:induction false} BatchPinsFirst(a: seq<Policy.EventWitness>, nonceA: Digest, b: seq<Policy.EventWitness>,
                                          nonceB: Digest)
    requires a != [] && b != [] && Policy.EventBatchCommitment(a, nonceA) == Policy.EventBatchCommitment(b, nonceB)
    ensures a[0].eventBytes == b[0].eventBytes
  {
    var h := Policy.TreeHeight(|a|);
    Merkle.ShiftBound(0, h, 0);
    assert Pow2(0) == 1;
    Merkle.RootPinsLeaves(EventTree, Policy.EventLeaves(a, nonceA), Policy.EventLeaves(b, nonceB), h, 0);
    assert Policy.EventLeaves(a, nonceA)(0) == Policy.EventLeaves(b, nonceB)(0);
  }

  /** Batches of different lots have different digests. */
  lemma {:induction false} BatchesDiffer(env: Policy.Env, a: Policy.PolicyInput, b: Policy.PolicyInput)
    requires NamesLot(env, a) && NamesLot(env, b) && a.lotId != b.lotId
    ensures Policy.EventBatchCommitment(a.events, a.batchNonce) != Policy.EventBatchCommitment(b.events, b.batchNonce)
  {
    if Policy.EventBatchCommitment(a.events, a.batchNonce) == Policy.EventBatchCommitment(b.events, b.batchNonce) {
      BatchPinsFirst(a.events, a.batchNonce, b.events, b.batchNonce);
    }
  }

  /** Leaves `i` to `j` meet every condition under which the reduction succeeds at all levels. */
  lemma {:induction false} StretchIsReady(env: Policy.Env, keys: Keys, run: seq<Policy.PolicyInput>,
                                          leaves: seq<EpochChild>, i: nat, j: nat)
    requires Policy.ValidEnv(env) && |leaves| == |run| && AllFacts(env, keys, run, leaves)
    requires NoLotTwice.LotsDiffer(run) && i < j <= |run| && SameEpoch(run, i, j) && (j - i) * 64 < U64_LIMIT
    ensures Ready(keys, leaves[i..j])
  {
    var nodes := leaves[i..j];
    forall c | c in nodes
      ensures ChildOk(keys, c) && c.Leaf?
    {
      var k: nat :| k < |nodes| && nodes[k] == c;
      assert LeafFacts(env, keys, run, leaves, i + k);
    }
    StretchIsLinked(env, keys, run, leaves, i, j);
    RunIsFresh(env, run, leaves);
    FreshSlice(leaves, i, j);
    StretchBatches(env, keys, run, leaves, i, j);
    LeavesCountThemselves(nodes);
  }

  lemma {:induction false} FreshSlice(leaves: seq<EpochChild>, i: nat, j: nat)
    requires i <= j <= |leaves| && FreshRoots(leaves)
    ensures FreshRoots(leaves[i..j])
  {
    assert forall k: nat :: k < j - i ==> leaves[i..j][k] == leaves[i + k];
  }

  lemma {:induction false} StretchIsLinked(env: Policy.Env, keys: Keys, run: seq<Policy.PolicyInput>,
                                           leaves: seq<EpochChild>, i: nat, j: nat)
    requires |leaves| == |run| && AllFacts(env, keys, run, leaves) && i < j <= |run| && SameEpoch(run, i, j)
    ensures Linked(leaves[i..j])
  {
    forall k: nat | k < j - i
      ensures EpochOf(leaves[i..j][k]) == EpochOf(leaves[i..j][0]) && PairOf(leaves[i..j][k]) == PairOf(leaves[i..j][0])
    {
      assert LeafFacts(env, keys, run, leaves, i + k) && LeafFacts(env, keys, run, leaves, i);
    }
    forall k: nat | 0 < k < j - i
      ensures OldOf(leaves[i..j][k]) == NewOf(leaves[i..j][k - 1])
    {
      assert RootFacts(env, run, leaves, i + k) && RootFacts(env, run, leaves, i + k - 1);
    }
  }

  /** No root of the run comes back later. */
  lemma {:induction false} RunIsFresh(env: Policy.Env, run: seq<Policy.PolicyInput>, leaves: seq<EpochChild>)
    requires Policy.ValidEnv(env) && |leaves| == |run| && forall k: nat :: k < |run| ==> RootFacts(env, run, leaves, k)
    ensures FreshRoots(leaves)
  {
    forall a: nat, b: nat | a <= b < |leaves|
      ensures OldOf(leaves[a]) != NewOf(leaves[b])
    {
      assert RootFacts(env, run, leaves, a) && RootFacts(env, run, leaves, b);
      IndicesNeverRepeat(env, run, a, b);
    }
  }

  lemma {:induction false} StretchBatches(env: Policy.Env, keys: Keys, run: seq<Policy.PolicyInput>,
                                          leaves: seq<EpochChild>, i: nat, j: nat)
    requires |leaves| == |run| && AllFacts(env, keys, run, leaves)
    requires NoLotTwice.LotsDiffer(run) && i < j <= |run|
    ensures DistinctBatches(leaves[i..j])
  {
    forall a: nat, b: nat | a < b < j - i
      ensures BatchOf(leaves[i..j][a]) != BatchOf(leaves[i..j][b])
    {
      assert LeafFacts(env, keys, run, leaves, i + a) && LeafFacts(env, keys, run, leaves, i + b);
      BatchesDiffer(env, run[i + a], run[i + b]);
    }
  }

  /**
   * An epoch of accepted leaves always aggregates: the root's public values span from the root of the
   * indices used before the epoch to the root with the epoch's added, and count its lots.
   */
  lemma {:induction false} EpochAggregates(env: Policy.Env, keys: Keys, run: seq<Policy.PolicyInput>, i: nat, j: nat)
    requires Policy.ValidEnv(env) && NoLotTwice.ChainedRun(env, run) && NoLotTwice.LotsDiffer(run)
    requires i < j <= |run| && SameEpoch(run, i, j) && (j - i) * 64 < U64_LIMIT
    ensures var root := Reduce(keys, Published(env, run)[i..j]);
      && root.Ok? && root.value.epochId == run[i].epochId && root.value.lotCount == j - i
      && root.value.oldNullifierRoot == SparseNullifiers.SetRoot(env.depth, Indices(env, run, i))
      && root.value.newNullifierRoot == SparseNullifiers.SetRoot(env.depth, Indices(env, run, j))
      && root.value.eventCount == Sum(EventCounts(run, i, j))
      && root.value.certificateRoot == run[i].certificateRoot
      && root.value.polygonCommitment == PolygonCommitment(run[i].polygonNonce, run[i].polygon)
  {
    RunFacts(env, keys, run);
    StretchAggregates(env, keys, run, Published(env, run), i, j);
  }

  lemma {:induction false} StretchEnds(env: Policy.Env, keys: Keys, run: seq<Policy.PolicyInput>,
                                       leaves: seq<EpochChild>, i: nat, j: nat)
    requires |leaves| == |run| && AllFacts(env, keys, run, leaves) && i < j <= |run|
    ensures EpochOf(leaves[i]) == run[i].epochId && leaves[i].Leaf? && PairOf(leaves[i])
        == (run[i].certificateRoot, PolygonCommitment(run[i].polygonNonce, run[i].polygon))
    ensures OldOf(leaves[i]) == SparseNullifiers.SetRoot(env.depth, Indices(env, run, i))
    ensures NewOf(leaves[j - 1]) == SparseNullifiers.SetRoot(env.depth, Indices(env, run, j))
  {
    assert LeafFacts(env, keys, run, leaves, i) && RootFacts(env, run, leaves, i) && RootFacts(env, run, leaves, j - 1);
  }

  /** The numbers of events of the leaves `i` to `j`. */
  function EventCounts(run: seq<Policy.PolicyInput>, i: nat, j: nat): seq<nat>
    requires i <= j <= |run|
  {
    seq(j - i, k requires 0 <= k < j - i => |run[i + k].events|)
  }

  lemma {:induction false} StretchEvents(env: Policy.Env, keys: Keys, run: seq<Policy.PolicyInput>,
                                         leaves: seq<EpochChild>, i: nat, j: nat)
    requires |leaves| == |run| && AllFacts(env, keys, run, leaves) && i <= j <= |run|
    ensures TotalEvents(leaves[i..j]) == Sum(EventCounts(run, i, j))
  {
    hide LeafFacts;
    hide RootFacts;
    hide EventsOf;
    if i < j {
      StretchEvents(env, keys, run, leaves, i, j - 1);
      assert leaves[i..j][..j - i - 1] == leaves[i..j - 1];
      assert EventCounts(run, i, j)[..j - i - 1] == EventCounts(run, i, j - 1);
      LeafEvents(env, keys, run, leaves, j - 1);
    }
  }

  lemma {:induction false} LeafEvents(env: Policy.Env, keys: Keys, run: seq<Policy.PolicyInput>,
                                      leaves: seq<EpochChild>, k: nat)
    requires k < |leaves| == |run| && LeafFacts(env, keys, run, leaves, k)
    ensures EventsOf(leaves[k]) == |run[k].events|
  {
  }

  lemma {:induction false} AllLeaves(env: Policy.Env, keys: Keys, run: seq<Policy.PolicyInput>, leaves: seq<EpochChild>)
    requires |leaves| == |run| && AllFacts(env, keys, run, leaves)
    ensures forall c :: c in leaves ==> c.Leaf?
  {
    forall c | c in leaves
      ensures c.Leaf?
    {
      var k: nat :| k < |leaves| && leaves[k] == c;
      assert LeafFacts(env, keys, run, leaves, k);
    }
  }

  lemma {:induction false} StretchAggregates(env: Policy.Env, keys: Keys, run: seq<Policy.PolicyInput>,
                                             leaves: seq<EpochChild>, i: nat, j: nat)
    requires Policy.ValidEnv(env) && |leaves| == |run| && AllFacts(env, keys, run, leaves)
    requires NoLotTwice.LotsDiffer(run) && i < j <= |run| && SameEpoch(run, i, j) && (j - i) * 64 < U64_LIMIT
    ensures var root := Reduce(keys, leaves[i..j]);
      && root.Ok? && root.value.epochId == run[i].epochId && root.value.lotCount == j - i
      && root.value.oldNullifierRoot == SparseNullifiers.SetRoot(env.depth, Indices(env, run, i))
      && root.value.newNullifierRoot == SparseNullifiers.SetRoot(env.depth, Indices(env, run, j))
      && root.value.eventCount == Sum(EventCounts(run, i, j))
      && root.value.certificateRoot == run[i].certificateRoot
      && root.value.polygonCommitment == PolygonCommitment(run[i].polygonNonce, run[i].polygon)
  {
    hide Ready;
    hide Reduce;
    hide AllFacts;
    hide SameEpoch;
    var nodes := leaves[i..j];
    StretchIsReady(env, keys, run, leaves, i, j);
    ReadyChainReduces(keys, nodes);
    ReductionMeansList(keys, nodes);
    StretchEnds(env, keys, run, leaves, i, j);
    StretchEvents(env, keys, run, leaves, i, j);
    AllLeaves(env, keys, run, leaves);
    assert forall c :: c in nodes ==> c in leaves;
    ReductionCountsLeaves(keys, nodes);
  }

  /** The same for every issuer history with restarts from the latest save: distinct lots need not be assumed. */
  lemma {:induction false} IssuedEpochAggregates(env: Policy.Env, keys: Keys, steps: seq<NoLotTwice.IssuerStep>,
                                                 run: seq<Policy.PolicyInput>, i: nat, j: nat)
    requires Policy.ValidEnv(env) && NoLotTwice.ChainedRun(env, run)
    requires forall k: nat :: k < |steps| ==> NoLotTwice.RestartsFromLatest(steps, k)
    requires NoLotTwice.AllIssued(env, steps, run)
    requires i < j <= |run| && SameEpoch(run, i, j) && (j - i) * 64 < U64_LIMIT
    ensures var root := Reduce(keys, Published(env, run)[i..j]);
      && root.Ok? && root.value.lotCount == j - i
      && root.value.oldNullifierRoot == SparseNullifiers.SetRoot(env.depth, Indices(env, run, i))
      && root.value.newNullifierRoot == SparseNullifiers.SetRoot(env.depth, Indices(env, run, j))
      && root.value.eventCount == Sum(EventCounts(run, i, j))
      && root.value.certificateRoot == run[i].certificateRoot
      && root.value.polygonCommitment == PolygonCommitment(run[i].polygonNonce, run[i].polygon)
  {
    NoLotTwice.NoLotAcceptedTwice(env, steps, run);
    EpochAggregates(env, keys, run, i, j);
  }
}
