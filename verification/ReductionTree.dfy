/**
 * Reducing an ordered list of leaves with fan-in eight.  A proof is represented by the public values
 * its guest evaluated to, so a node's proof is the ABI encoding of `Epoch.EvaluateNode`.
 */
module ReductionTree {
  import opened Primitives
  import opened Digests
  import opened Epoch

  function GroupSize(nodes: seq<EpochChild>): nat
  {
    if |nodes| < MAX_FAN_IN then |nodes| else MAX_FAN_IN
  }

  /** Evaluate consecutive groups of up to eight nodes, left to right; the first failure stops. */
  function NextLevel(keys: Keys, nodes: seq<EpochChild>): (r: Result<seq<EpochChild>, EpochError>)
    ensures r.Ok? ==> |r.value| == (|nodes| + 7) / 8
    decreases |nodes|
  {
    if nodes == [] then Ok([])
    else
      var k := GroupSize(nodes);
      var head := EvaluateNode(keys, nodes[..k]);
      if head.Err? then Err(head.error)
      else
        Prepend([Aggregate(AbiEncode(head.value))], NextLevel(keys, nodes[k..]))
  }

  function Prepend(done: seq<EpochChild>, rest: Result<seq<EpochChild>, EpochError>):
      Result<seq<EpochChild>, EpochError>
  {
    if rest.Err? then rest else Ok(done + rest.value)
  }

  lemma {:induction false} PrependTwice(done: seq<EpochChild>, node: EpochChild,
                                        rest: Result<seq<EpochChild>, EpochError>)
    ensures Prepend(done + [node], rest) == Prepend(done, Prepend([node], rest))
  {
    if rest.Ok? { assert done + [node] + rest.value == done + ([node] + rest.value); }
  }

  lemma {:induction false} PrependNothing(nodes: seq<EpochChild>, rest: Result<seq<EpochChild>, EpochError>)
    ensures Prepend([], rest) == rest && Prepend(nodes, Ok([])) == Ok(nodes)
  {
    if rest.Ok? { assert [] + rest.value == rest.value; }
    assert nodes + [] == nodes;
  }

  /** The whole reduction: levels until at most eight nodes remain, then the root node. */
  function Reduce(keys: Keys, nodes: seq<EpochChild>): Result<EpochPublicValues, EpochError>
    decreases |nodes|
  {
    if |nodes| <= MAX_FAN_IN then EvaluateNode(keys, nodes)
    else
      var next := NextLevel(keys, nodes);
      if next.Err? then Err(next.error) else Reduce(keys, next.value)
  }

  /** The inner loop of `prove_epoch_tree_with`: drain the remaining nodes eight at a time. */
  method ReduceLevel(keys: Keys, nodes: seq<EpochChild>) returns (r: Result<seq<EpochChild>, EpochError>)
    ensures r == NextLevel(keys, nodes)
  {
    var next: seq<EpochChild> := [];
    var remaining := nodes;
    PrependNothing(nodes, NextLevel(keys, nodes));
    while remaining != []
      invariant NextLevel(keys, nodes) == Prepend(next, NextLevel(keys, remaining))
      decreases |remaining|
    {
      var k := GroupSize(remaining);
      var node := Evaluate(keys, remaining[..k]);
      if node.Err? { return Err(node.error); }
      PrependTwice(next, Aggregate(AbiEncode(node.value)), NextLevel(keys, remaining[k..]));
      next := next + [Aggregate(AbiEncode(node.value))];
      remaining := remaining[k..];
    }
    assert next + [] == next;
    return Ok(next);
  }

  /** `prove_epoch_tree_with`; an empty list is refused, and every level shrinks `n` nodes to `ceil(n/8)`. */
  method ReduceTree(keys: Keys, leaves: seq<EpochChild>) returns (r: Result<EpochPublicValues, EpochError>)
    ensures r == Reduce(keys, leaves)
    ensures leaves == [] ==> r.Err?
  {
    var nodes := leaves;
    while |nodes| > MAX_FAN_IN
      invariant Reduce(keys, nodes) == Reduce(keys, leaves)
      invariant leaves == [] ==> nodes == []
      decreases |nodes|
    {
      var next := ReduceLevel(keys, nodes);
      if next.Err? { return Err(next.error); }
      nodes := next.value;
    }
    r := Evaluate(keys, nodes);
  }

  // ----- concatenation

  lemma {:induction false} TotalsConcat(a: seq<EpochChild>, b: seq<EpochChild>)
    ensures TotalLots(a + b) == TotalLots(a) + TotalLots(b)
    ensures TotalEvents(a + b) == TotalEvents(a) + TotalEvents(b)
    decreases |b|
  {
    if b == [] {
      assert a + b == a;
    } else {
      assert (a + b)[..|a + b| - 1] == a + b[..|b| - 1];
      TotalsConcat(a, b[..|b| - 1]);
    }
  }

  ghost predicate Joins(a: seq<EpochChild>, b: seq<EpochChild>)
    requires a != [] && b != []
  {
    EpochOf(a[0]) == EpochOf(b[0]) && PairOf(a[0]) == PairOf(b[0]) && NewOf(a[|a| - 1]) == OldOf(b[0])
  }

  lemma {:induction false} LinkedConcat(a: seq<EpochChild>, b: seq<EpochChild>)
    requires a != [] && b != []
    ensures Linked(a + b) <==> Linked(a) && Linked(b) && Joins(a, b)
  {
    var ab := a + b;
    assert forall i: nat :: i < |a| ==> ab[i] == a[i];
    assert forall i: nat :: i < |b| ==> b[i] == ab[|a| + i];
    if Linked(ab) {
      assert Joins(a, b) by { assert ab[|a|] == b[0] && ab[|a| - 1] == a[|a| - 1]; }
    }
    if Linked(a) && Linked(b) && Joins(a, b) {
      forall i: nat | i < |ab|
        ensures EpochOf(ab[i]) == EpochOf(ab[0]) && PairOf(ab[i]) == PairOf(ab[0])
        ensures i > 0 ==> OldOf(ab[i]) == NewOf(ab[i - 1])
      {
        if i >= |a| { assert ab[i] == b[i - |a|]; }
        if i > |a| { assert ab[i - 1] == b[i - 1 - |a|]; }
      }
    }
  }

  /** What an aggregate carries of the group it stands for. */
  ghost predicate StandsFor(keys: Keys, node: EpochChild, group: seq<EpochChild>)
    requires group != []
  {
    && node.Aggregate? && EpochOf(node) == EpochOf(group[0]) && PairOf(node) == PairOf(group[0])
    && OldOf(node) == OldOf(group[0]) && NewOf(node) == NewOf(group[|group| - 1])
    && LotsOf(node) == TotalLots(group) && EventsOf(node) == TotalEvents(group)
    && BatchOf(node)
         == EpochCommitment(keys.leafVk, keys.aggregateVk, PairOf(group[0]).0, PairOf(group[0]).1, Records(group))
    && node.words[6] == Raw(1) && node.words[7] == keys.leafVk && node.words[8] == keys.aggregateVk
    && IsU64(node.words[0]) && IsU64(node.words[4]) && IsU64(node.words[5])
  }

  lemma {:induction false} ReportStandsForGroup(keys: Keys, group: seq<EpochChild>, v: EpochPublicValues)
    requires group != [] && EpochOf(group[0]) < U64_LIMIT
    requires TotalLots(group) < U64_LIMIT && TotalEvents(group) < U64_LIMIT
    requires v == Report(keys, group)
    ensures StandsFor(keys, Aggregate(AbiEncode(v)), group)
  {
  }

  lemma {:induction false} AggregateStandsForGroup(keys: Keys, group: seq<EpochChild>)
    requires EvaluateNode(keys, group).Ok?
    ensures group != [] && Connected(keys, group)
    ensures StandsFor(keys, Aggregate(AbiEncode(EvaluateNode(keys, group).value)), group)
  {
    NodeAcceptsExactly(keys, group);
    ReportStandsForGroup(keys, group, EvaluateNode(keys, group).value);
  }

  // ----- the tree means the flat chain

  lemma {:induction false} LevelUnfolds(keys: Keys, nodes: seq<EpochChild>)
    requires nodes != [] && NextLevel(keys, nodes).Ok?
    ensures var k := GroupSize(nodes);
      && nodes == nodes[..k] + nodes[k..] && EvaluateNode(keys, nodes[..k]).Ok? && NextLevel(keys, nodes[k..]).Ok?
      && NextLevel(keys, nodes).value
           == [Aggregate(AbiEncode(EvaluateNode(keys, nodes[..k]).value))] + NextLevel(keys, nodes[k..]).value
  {
  }

  /** One level keeps the totals and accepts only acceptable nodes. */
  lemma {:induction false} LevelKeepsTotals(keys: Keys, nodes: seq<EpochChild>)
    requires NextLevel(keys, nodes).Ok?
    ensures TotalLots(NextLevel(keys, nodes).value) == TotalLots(nodes)
    ensures TotalEvents(NextLevel(keys, nodes).value) == TotalEvents(nodes)
    ensures forall c :: c in nodes ==> ChildOk(keys, c)
    decreases |nodes|
  {
    if nodes != [] {
      var group, rest := nodes[..GroupSize(nodes)], nodes[GroupSize(nodes)..];
      LevelUnfolds(keys, nodes);
      var node := Aggregate(AbiEncode(EvaluateNode(keys, group).value));
      LevelKeepsTotals(keys, rest);
      AggregateStandsForGroup(keys, group);
      TotalsConcat(group, rest);
      TotalsConcat([node], NextLevel(keys, rest).value);
      assert [node][..0] == [];
      assert forall c :: c in nodes ==> c in group || c in rest;
    }
  }

  ghost predicate SameEnds(a: seq<EpochChild>, b: seq<EpochChild>)
    requires a != [] && b != []
  {
    && EpochOf(a[0]) == EpochOf(b[0]) && PairOf(a[0]) == PairOf(b[0])
    && OldOf(a[0]) == OldOf(b[0]) && NewOf(a[|a| - 1]) == NewOf(b[|b| - 1])
  }

  lemma {:induction false} GroupEnds(keys: Keys, group: seq<EpochChild>)
    requires EvaluateNode(keys, group).Ok?
    ensures group != [] && Linked(group) && Linked([Aggregate(AbiEncode(EvaluateNode(keys, group).value))])
    ensures SameEnds([Aggregate(AbiEncode(EvaluateNode(keys, group).value))], group)
  {
    AggregateStandsForGroup(keys, group);
  }

  /** Swapping parts for parts with the same ends and linkage keeps ends and linkage. */
  lemma {:induction false} SameEndsConcat(a: seq<EpochChild>, b: seq<EpochChild>, c: seq<EpochChild>,
                                          d: seq<EpochChild>)
    requires a != [] && b != [] && SameEnds(a, b) && (Linked(a) <==> Linked(b))
    requires c != [] && d != [] && SameEnds(c, d) && (Linked(c) <==> Linked(d))
    ensures SameEnds(a + c, b + d) && (Linked(a + c) <==> Linked(b + d))
  {
    LinkedConcat(a, c);
    LinkedConcat(b, d);
  }

  /** One level keeps the end points, and is linked exactly when its input is. */
  lemma {:induction false} LevelKeepsLinkage(keys: Keys, nodes: seq<EpochChild>)
    requires nodes != [] && NextLevel(keys, nodes).Ok?
    ensures var next := NextLevel(keys, nodes).value;
      next != [] && SameEnds(next, nodes) && (Linked(next) <==> Linked(nodes))
    decreases |nodes|
  {
    var group, rest := nodes[..GroupSize(nodes)], nodes[GroupSize(nodes)..];
    LevelUnfolds(keys, nodes);
    GroupEnds(keys, group);
    var node := Aggregate(AbiEncode(EvaluateNode(keys, group).value));
    if rest == [] {
      assert group == nodes && NextLevel(keys, nodes).value == [node];
    } else {
      LevelKeepsLinkage(keys, rest);
      SameEndsConcat([node], group, NextLevel(keys, rest).value, rest);
    }
  }

  ghost predicate ReportsList(v: EpochPublicValues, nodes: seq<EpochChild>)
    requires nodes != []
  {
    && v.epochId == EpochOf(nodes[0]) && (v.certificateRoot, v.polygonCommitment) == PairOf(nodes[0])
    && v.oldNullifierRoot == OldOf(nodes[0]) && v.newNullifierRoot == NewOf(nodes[|nodes| - 1])
    && v.lotCount == TotalLots(nodes) && v.eventCount == TotalEvents(nodes) && v.valid
  }

  /**
   * If the reduction succeeds, all inputs are acceptable, share epoch and policy pair and connect end
   * to end, and the root reports the first old root, the last new root and the flat totals.
   */
  lemma {:induction false} ReductionMeansList(keys: Keys, nodes: seq<EpochChild>)
    requires Reduce(keys, nodes).Ok?
    ensures nodes != [] && Linked(nodes) && (forall c :: c in nodes ==> ChildOk(keys, c))
    ensures ReportsList(Reduce(keys, nodes).value, nodes)
    decreases |nodes|
  {
    if |nodes| <= MAX_FAN_IN {
      NodeAcceptsExactly(keys, nodes);
    } else {
      LevelKeepsTotals(keys, nodes);
      LevelKeepsLinkage(keys, nodes);
      ReductionMeansList(keys, NextLevel(keys, nodes).value);
    }
  }

  lemma {:induction false} LeavesCountThemselves(leaves: seq<EpochChild>)
    requires forall c :: c in leaves ==> c.Leaf?
    ensures TotalLots(leaves) == |leaves|
  {
    if leaves != [] { LeavesCountThemselves(leaves[..|leaves| - 1]); }
  }

  /** For leaves the reported lot count is their number. */
  lemma {:induction false} ReductionCountsLeaves(keys: Keys, leaves: seq<EpochChild>)
    requires Reduce(keys, leaves).Ok? && forall c :: c in leaves ==> c.Leaf?
    ensures Reduce(keys, leaves).value.lotCount == |leaves|
  {
    ReductionMeansList(keys, leaves);
    LeavesCountThemselves(leaves);
  }

  // ----- a connected chain of fresh roots always reduces

  /** No root of the chain repeats: a node's old root is no later node's new root, nor its own. */
  ghost predicate FreshRoots(nodes: seq<EpochChild>)
  {
    forall i: nat, j: nat :: i <= j < |nodes| ==> OldOf(nodes[i]) != NewOf(nodes[j])
  }

  lemma {:induction false} FreshConcat(a: seq<EpochChild>, b: seq<EpochChild>)
    ensures FreshRoots(a + b) <==>
      FreshRoots(a) && FreshRoots(b) && forall x, y :: x in a && y in b ==> OldOf(x) != NewOf(y)
  {
    var ab := a + b;
    assert forall i: nat :: i < |a| ==> ab[i] == a[i];
    assert forall i: nat :: i < |b| ==> b[i] == ab[|a| + i];
    if FreshRoots(ab) {
      forall x, y | x in a && y in b
        ensures OldOf(x) != NewOf(y)
      {
        var i :| 0 <= i < |a| && a[i] == x;
        var j :| 0 <= j < |b| && b[j] == y;
        assert ab[i] == x && ab[|a| + j] == y;
      }
    }
    if FreshRoots(a) && FreshRoots(b) && forall x, y :: x in a && y in b ==> OldOf(x) != NewOf(y) {
      forall i: nat, j: nat | i <= j < |ab|
        ensures OldOf(ab[i]) != NewOf(ab[j])
      {
        if i >= |a| { assert ab[i] == b[i - |a|] && ab[j] == b[j - |a|]; }
        else if j >= |a| { assert ab[i] in a && ab[j] == b[j - |a|] && ab[j] in b; }
      }
    }
  }

  lemma {:induction false} DistinctConcat(a: seq<EpochChild>, b: seq<EpochChild>)
    ensures DistinctBatches(a + b) <==>
      DistinctBatches(a) && DistinctBatches(b) && forall x, y :: x in a && y in b ==> BatchOf(x) != BatchOf(y)
  {
    var ab := a + b;
    assert forall i: nat :: i < |a| ==> ab[i] == a[i];
    assert forall i: nat :: i < |b| ==> b[i] == ab[|a| + i];
    if DistinctBatches(ab) {
      forall x, y | x in a && y in b
        ensures BatchOf(x) != BatchOf(y)
      {
        var i :| 0 <= i < |a| && a[i] == x;
        var j :| 0 <= j < |b| && b[j] == y;
        assert ab[i] == x && ab[|a| + j] == y;
      }
    }
    if DistinctBatches(a) && DistinctBatches(b) && forall x, y :: x in a && y in b ==> BatchOf(x) != BatchOf(y) {
      forall i: nat, j: nat | i < j < |ab|
        ensures BatchOf(ab[i]) != BatchOf(ab[j])
      {
        if i >= |a| { assert ab[i] == b[i - |a|] && ab[j] == b[j - |a|]; }
        else if j >= |a| { assert ab[i] in a && ab[j] == b[j - |a|] && ab[j] in b; }
      }
    }
  }

  ghost predicate Ready(keys: Keys, nodes: seq<EpochChild>)
  {
    && (forall c :: c in nodes ==> ChildOk(keys, c))
    && Linked(nodes) && FreshRoots(nodes) && DistinctBatches(nodes)
    && TotalLots(nodes) * 64 < U64_LIMIT
  }

  lemma {:induction false} TotalsInRange(keys: Keys, nodes: seq<EpochChild>)
    requires forall c :: c in nodes ==> ChildOk(keys, c)
    ensures TotalLots(nodes) * 8 <= TotalEvents(nodes) <= TotalLots(nodes) * 64
    ensures TotalLots(nodes) >= |nodes|
  {
    if nodes != [] {
      var before, c := nodes[..|nodes| - 1], nodes[|nodes| - 1];
      TotalsInRange(keys, before);
      assert c in nodes && ChildOk(keys, c);
    }
  }

  lemma {:induction false} ReadyParts(keys: Keys, a: seq<EpochChild>, b: seq<EpochChild>)
    requires a != [] && Ready(keys, a + b)
    ensures Ready(keys, a) && Ready(keys, b)
    ensures b != [] ==> Joins(a, b)
    ensures forall x, y :: x in a && y in b ==> OldOf(x) != NewOf(y)
    ensures b != [] ==> forall x :: x in a ==> OldOf(x) != OldOf(b[0])
  {
    assert forall x :: x in a + b <==> x in a || x in b;
    FreshConcat(a, b);
    DistinctConcat(a, b);
    TotalsConcat(a, b);
    if b == [] { assert a + b == a; } else { LinkedConcat(a, b); }
    if b != [] {
      forall x | x in a
        ensures OldOf(x) != OldOf(b[0])
      {
        var i :| 0 <= i < |a| && a[i] == x;
      }
    }
  }

  /** A ready group is accepted and its aggregate is an acceptable child with a fresh advance. */
  lemma {:induction false} GroupReduces(keys: Keys, group: seq<EpochChild>)
    requires 1 <= |group| <= MAX_FAN_IN && Ready(keys, group)
    ensures EvaluateNode(keys, group).Ok?
    ensures ChildOk(keys, Aggregate(AbiEncode(EvaluateNode(keys, group).value)))
  {
    TotalsInRange(keys, group);
    NodeAcceptsExactly(keys, group);
    AggregateStandsForGroup(keys, group);
    assert group[0] in group;
  }

  /** Where the aggregates of a level come from. */
  ghost predicate Summary(nodes: seq<EpochChild>, x: EpochChild)
  {
    && (exists y :: y in nodes && OldOf(y) == OldOf(x)) && (exists y :: y in nodes && NewOf(y) == NewOf(x))
    && BatchOf(x).EpochCommitment? && BatchOf(x).records != [] && BatchOf(x).records[0].oldRoot == OldOf(x)
  }

  lemma {:induction false} GroupSummary(keys: Keys, group: seq<EpochChild>, nodes: seq<EpochChild>)
    requires EvaluateNode(keys, group).Ok? && forall c :: c in group ==> c in nodes
    ensures Summary(nodes, Aggregate(AbiEncode(EvaluateNode(keys, group).value)))
  {
    NodeAcceptsExactly(keys, group);
    AggregateStandsForGroup(keys, group);
    assert group[0] in nodes && group[|group| - 1] in nodes;
    assert Records(group)[0] == RecordOf(group[0]);
  }

  lemma {:induction false} LevelIsReady(keys: Keys, nodes: seq<EpochChild>, group: seq<EpochChild>,
                                        rest: seq<EpochChild>)
    requires nodes == group + rest && 1 <= |group| <= MAX_FAN_IN && Ready(keys, nodes) && EvaluateNode(keys, group).Ok?
    requires NextLevel(keys, rest).Ok? && Ready(keys, NextLevel(keys, rest).value)
    requires forall x :: x in NextLevel(keys, rest).value ==> Summary(rest, x)
    requires NextLevel(keys, nodes)
        == Ok([Aggregate(AbiEncode(EvaluateNode(keys, group).value))] + NextLevel(keys, rest).value)
    ensures Ready(keys, NextLevel(keys, nodes).value)
  {
    PrependReady(keys, group, rest);
    LevelKeepsTotals(keys, nodes);
    LevelKeepsLinkage(keys, nodes);
  }

  lemma {:induction false} LevelStaysReady(keys: Keys, nodes: seq<EpochChild>)
    requires Ready(keys, nodes)
    ensures NextLevel(keys, nodes).Ok? && Ready(keys, NextLevel(keys, nodes).value)
    ensures forall x :: x in NextLevel(keys, nodes).value ==> Summary(nodes, x)
    decreases |nodes|
  {
    hide Ready;
    hide Summary;
    if nodes != [] {
      var group, rest := nodes[..GroupSize(nodes)], nodes[GroupSize(nodes)..];
      assert nodes == group + rest;
      ReadyParts(keys, group, rest);
      GroupReduces(keys, group);
      LevelStaysReady(keys, rest);
      LevelUnfolds(keys, nodes);
      LevelIsReady(keys, nodes, group, rest);
      GroupSummary(keys, group, nodes);
      SummariesWiden(rest, nodes, NextLevel(keys, rest).value);
    }
  }

  lemma {:induction false} SummariesWiden(some: seq<EpochChild>, all: seq<EpochChild>, xs: seq<EpochChild>)
    requires (forall x :: x in xs ==> Summary(some, x)) && forall c :: c in some ==> c in all
    ensures forall x :: x in xs ==> Summary(all, x)
  {
    forall x | x in xs
      ensures Summary(all, x)
    {
      SummaryWidens(some, all, x);
    }
  }

  lemma {:induction false} SummaryWidens(some: seq<EpochChild>, all: seq<EpochChild>, x: EpochChild)
    requires Summary(some, x) && forall c :: c in some ==> c in all
    ensures Summary(all, x)
  {
  }

  lemma {:induction false} PrependReady(keys: Keys, group: seq<EpochChild>, rest: seq<EpochChild>)
    requires 1 <= |group| <= MAX_FAN_IN && Ready(keys, group + rest) && EvaluateNode(keys, group).Ok?
    requires NextLevel(keys, rest).Ok? && Ready(keys, NextLevel(keys, rest).value)
    requires forall x :: x in NextLevel(keys, rest).value ==> Summary(rest, x)
    ensures var next := [Aggregate(AbiEncode(EvaluateNode(keys, group).value))] + NextLevel(keys, rest).value;
      && (forall c :: c in next ==> ChildOk(keys, c)) && FreshRoots(next) && DistinctBatches(next)
  {
    hide EvaluateNode;
    hide NextLevel;
    var node, tail := Aggregate(AbiEncode(EvaluateNode(keys, group).value)), NextLevel(keys, rest).value;
    GroupIsFresh(keys, group, rest);
    forall y | y in tail
      ensures OldOf(node) != NewOf(y) && OldOf(node) != OldOf(y)
    {
      LaterRootsDiffer(keys, group, rest, y);
    }
    PrependFresh(node, tail);
    PrependDistinct(group, rest, node, tail);
  }

  /** The group's own aggregate: acceptable, advancing, and starting where the group starts. */
  lemma {:induction false} GroupIsFresh(keys: Keys, group: seq<EpochChild>, rest: seq<EpochChild>)
    requires 1 <= |group| <= MAX_FAN_IN && Ready(keys, group + rest) && EvaluateNode(keys, group).Ok?
    ensures var node := Aggregate(AbiEncode(EvaluateNode(keys, group).value));
      ChildOk(keys, node) && OldOf(node) == OldOf(group[0]) != NewOf(node) && Summary(group, node)
  {
    hide EvaluateNode;
    ReadyParts(keys, group, rest);
    GroupReduces(keys, group);
    GroupSummary(keys, group, group);
    AggregateStandsForGroup(keys, group);
  }

  /** Nothing later starts or ends at the root the group starts from. */
  lemma {:induction false} LaterRootsDiffer(keys: Keys, group: seq<EpochChild>, rest: seq<EpochChild>, y: EpochChild)
    requires group != [] && Ready(keys, group + rest) && Summary(rest, y)
    ensures OldOf(group[0]) != NewOf(y) && OldOf(group[0]) != OldOf(y)
  {
    ReadyParts(keys, group, rest);
    var first :| first in rest && OldOf(first) == OldOf(y);
    OldRootsDiffer(keys, group, rest, first);
    assert group[0] in group;
  }

  lemma {:induction false} PrependFresh(node: EpochChild, tail: seq<EpochChild>)
    requires FreshRoots(tail) && OldOf(node) != NewOf(node) && forall y :: y in tail ==> OldOf(node) != NewOf(y)
    ensures FreshRoots([node] + tail)
  {
    FreshConcat([node], tail);
  }

  lemma {:induction false} PrependDistinct(group: seq<EpochChild>, rest: seq<EpochChild>, node: EpochChild,
                                           tail: seq<EpochChild>)
    requires DistinctBatches(tail) && Summary(group, node)
    requires forall y :: y in tail ==> Summary(rest, y) && OldOf(node) != OldOf(y)
    ensures DistinctBatches([node] + tail)
  {
    DistinctConcat([node], tail);
  }

  lemma {:induction false} OldRootsDiffer(keys: Keys, a: seq<EpochChild>, b: seq<EpochChild>, y: EpochChild)
    requires a != [] && Ready(keys, a + b) && y in b
    ensures OldOf(y) != OldOf(a[0])
  {
    ReadyParts(keys, a, b);
    var j :| 0 <= j < |b| && b[j] == y;
    if j > 0 { assert OldOf(y) == NewOf(b[j - 1]) && b[j - 1] in b && a[0] in a; }
  }

  /** A nonempty connected chain with fresh roots, distinct batches and counts in range succeeds at every level. */
  lemma {:induction false} ReadyChainReduces(keys: Keys, nodes: seq<EpochChild>)
    requires nodes != [] && Ready(keys, nodes)
    ensures Reduce(keys, nodes).Ok?
    decreases |nodes|
  {
    if |nodes| <= MAX_FAN_IN {
      GroupReduces(keys, nodes);
    } else {
      LevelStaysReady(keys, nodes);
      ReadyChainReduces(keys, NextLevel(keys, nodes).value);
    }
  }
}
