/**
 * Exactly which lists the reduction tree accepts, in terms of the list alone: acceptable, linked nodes whose
 * aligned blocks of 8, 64, 512, ... advance, count in range and differ from their siblings.
 */
module ReductionExact {
  import opened Primitives
  import opened Digests
  import opened Epoch
  import opened ReductionTree

  function Pow8(d: nat): (r: nat)
    ensures r > 0
  {
    if d == 0 then 1 else 8 * Pow8(d - 1)
  }

  /** Where block `j` of width `8^d` starts. */
  function StartOf(d: nat, j: nat): nat
  {
    j * Pow8(d)
  }

  function Least(a: nat, b: nat): nat
  {
    if a < b then a else b
  }

  /** Block `j` of width `8^d`; the last one may be shorter. */
  function Block(nodes: seq<EpochChild>, d: nat, j: nat): (block: seq<EpochChild>)
    requires StartOf(d, j) < |nodes|
    ensures block != []
  {
    BlockEnds(d, j);
    nodes[StartOf(d, j)..Least(StartOf(d, j + 1), |nodes|)]
  }

  lemma {:induction false} BlockEnds(d: nat, j: nat)
    ensures StartOf(d, j) < StartOf(d, j + 1) == StartOf(d, j) + Pow8(d)
  {
  }

  lemma {:induction false} NextStart(d: nat, j: nat)
    ensures StartOf(d + 1, j) == 8 * StartOf(d, j) && StartOf(0, j) == j
  {
    assert j * (8 * Pow8(d)) == 8 * (j * Pow8(d));
  }

  /** Two blocks that give one digest: single nodes compare by batch, larger blocks by what the commitment absorbs. */
  ghost predicate Alike(d: nat, x: seq<EpochChild>, y: seq<EpochChild>)
    requires x != [] && y != []
  {
    if d == 0 then BatchOf(x[0]) == BatchOf(y[0]) else Records(x) == Records(y)
  }

  ghost predicate BlockOk(nodes: seq<EpochChild>, d: nat, j: nat)
    requires StartOf(d, j) < |nodes|
  {
    var block := Block(nodes, d, j);
    OldOf(block[0]) != NewOf(block[|block| - 1]) && TotalLots(block) * 64 < U64_LIMIT
  }

  /** Blocks below one parent differ. */
  ghost predicate SiblingsDiffer(nodes: seq<EpochChild>, d: nat, j: nat, k: nat)
    requires StartOf(d, j) < |nodes| && StartOf(d, k) < |nodes|
  {
    j < k && j / MAX_FAN_IN == k / MAX_FAN_IN ==> !Alike(d, Block(nodes, d, j), Block(nodes, d, k))
  }

  ghost predicate LevelOk(nodes: seq<EpochChild>, d: nat)
  {
    && (forall j: nat :: StartOf(d, j) < |nodes| ==> BlockOk(nodes, d, j))
    && forall j: nat, k: nat :: StartOf(d, j) < |nodes| && StartOf(d, k) < |nodes| ==> SiblingsDiffer(nodes, d, j, k)
  }

  /** Some parent takes the blocks of width `8^d` as its children. */
  predicate IsLevel(n: nat, d: nat)
  {
    d == 0 || Pow8(d) < n
  }

  ghost predicate Reducible(keys: Keys, nodes: seq<EpochChild>)
  {
    && nodes != [] && (forall c :: c in nodes ==> ChildOk(keys, c)) && Linked(nodes)
    && TotalLots(nodes) < U64_LIMIT && TotalEvents(nodes) < U64_LIMIT
    && forall d: nat :: IsLevel(|nodes|, d) ==> LevelOk(nodes, d)
  }

  // ----- groups of one level

  /** Group `j` of a level. */
  function Group(nodes: seq<EpochChild>, j: nat): seq<EpochChild>
    requires 8 * j < |nodes|
  {
    nodes[8 * j..Least(8 * j + 8, |nodes|)]
  }

  function NodeOf(keys: Keys, group: seq<EpochChild>): EpochChild
    requires EvaluateNode(keys, group).Ok?
  {
    Aggregate(AbiEncode(EvaluateNode(keys, group).value))
  }

  lemma {:induction false} GroupOfRest(nodes: seq<EpochChild>, j: nat)
    requires 8 * (j + 1) < |nodes|
    ensures GroupSize(nodes) == 8 && Group(nodes[8..], j) == Group(nodes, j + 1)
  {
  }

  /** A level succeeds exactly when each of its groups does, and then holds their nodes in order. */
  lemma {:induction false} LevelExactly(keys: Keys, nodes: seq<EpochChild>)
    ensures NextLevel(keys, nodes).Ok? <==>
        forall j: nat :: 8 * j < |nodes| ==> EvaluateNode(keys, Group(nodes, j)).Ok?
    ensures NextLevel(keys, nodes).Ok? ==> forall j: nat :: 8 * j < |nodes| ==>
        EvaluateNode(keys, Group(nodes, j)).Ok? && NextLevel(keys, nodes).value[j] == NodeOf(keys, Group(nodes, j))
    decreases |nodes|
  {
    hide EvaluateNode;
    if nodes != [] {
      var k := GroupSize(nodes);
      assert Group(nodes, 0) == nodes[..k];
      LevelExactly(keys, nodes[k..]);
      forall j: nat | 8 * (j + 1) < |nodes|
        ensures k == 8 && Group(nodes[k..], j) == Group(nodes, j + 1)
      {
        GroupOfRest(nodes, j);
      }
      if NextLevel(keys, nodes).Ok? {
        LevelUnfolds(keys, nodes);
        forall j: nat | 8 * j < |nodes|
          ensures EvaluateNode(keys, Group(nodes, j)).Ok?
          ensures NextLevel(keys, nodes).value[j] == NodeOf(keys, Group(nodes, j))
        {
          if j > 0 { assert Group(nodes[k..], j - 1) == Group(nodes, j); }
        }
      }
    }
  }

  lemma {:induction false} GroupOfSlice(nodes: seq<EpochChild>, a: nat, e: nat, i: nat)
    requires 8 * a < e <= |nodes| && (e == |nodes| || e % 8 == 0) && 8 * i < e - 8 * a
    ensures Group(nodes[8 * a..e], i) == Group(nodes, a + i)
  {
    if e % 8 == 0 { assert e == 8 * (e / 8) && a + i < e / 8; }
    assert nodes[8 * a..e][8 * i..Least(8 * i + 8, e - 8 * a)] == nodes[8 * (a + i)..Least(8 * (a + i) + 8, e)];
  }

  /** An aligned slice of a level is the level of the slice. */
  lemma {:induction false} SliceLevel(keys: Keys, nodes: seq<EpochChild>, a: nat, b: nat)
    requires NextLevel(keys, nodes).Ok? && a < b <= |NextLevel(keys, nodes).value|
    ensures var slice := nodes[8 * a..Least(8 * b, |nodes|)];
      NextLevel(keys, slice) == Ok(NextLevel(keys, nodes).value[a..b])
  {
    hide NextLevel;
    hide EvaluateNode;
    var next, e := NextLevel(keys, nodes).value, Least(8 * b, |nodes|);
    var slice := nodes[8 * a..e];
    LevelExactly(keys, nodes);
    LevelExactly(keys, slice);
    forall i: nat | 8 * i < |slice|
      ensures Group(slice, i) == Group(nodes, a + i) && EvaluateNode(keys, Group(slice, i)).Ok?
    {
      GroupOfSlice(nodes, a, e, i);
    }
    assert NextLevel(keys, slice).Ok?;
    forall i: nat | i < b - a
      ensures NextLevel(keys, slice).value[i] == next[a + i]
    {
      assert Group(slice, i) == Group(nodes, a + i);
    }
    LevelLength(keys, nodes);
    LevelLength(keys, slice);
    assert NextLevel(keys, slice).value == next[a..b];
  }

  /** Blocks of a level's result come from the blocks eight times as wide. */
  lemma {:induction false} BlockOfLevel(keys: Keys, nodes: seq<EpochChild>, d: nat, j: nat)
    requires NextLevel(keys, nodes).Ok?
    ensures StartOf(d, j) < |NextLevel(keys, nodes).value| <==> StartOf(d + 1, j) < |nodes|
    ensures StartOf(d + 1, j) < |nodes| ==>
        NextLevel(keys, Block(nodes, d + 1, j)) == Ok(Block(NextLevel(keys, nodes).value, d, j))
  {
    hide NextLevel;
    hide StartOf;
    LevelLength(keys, nodes);
    NextStart(d, j);
    NextStart(d, j + 1);
    BlockEnds(d, j);
    var next := NextLevel(keys, nodes).value;
    if StartOf(d + 1, j) < |nodes| {
      SliceLevel(keys, nodes, StartOf(d, j), Least(StartOf(d, j + 1), |next|));
    }
  }

  lemma {:induction false} LevelLength(keys: Keys, nodes: seq<EpochChild>)
    requires NextLevel(keys, nodes).Ok?
    ensures |NextLevel(keys, nodes).value| == (|nodes| + 7) / 8
  {
  }

  // ----- records

  lemma {:induction false} RecordsConcat(a: seq<EpochChild>, b: seq<EpochChild>)
    ensures Records(a + b) == Records(a) + Records(b) && |Records(a)| == |a|
  {
  }

  lemma {:induction false} RecordsParts(a: seq<EpochChild>, b: seq<EpochChild>, c: seq<EpochChild>, d: seq<EpochChild>)
    requires |a| == |c|
    ensures Records(a + b) == Records(c + d) <==> Records(a) == Records(c) && Records(b) == Records(d)
  {
    RecordsConcat(a, b);
    RecordsConcat(c, d);
    var x, y := Records(a) + Records(b), Records(c) + Records(d);
    assert x[..|a|] == Records(a) && x[|a|..] == Records(b) && y[..|a|] == Records(c) && y[|a|..] == Records(d);
  }

  lemma {:induction false} RecordsTell(x: seq<EpochChild>, y: seq<EpochChild>)
    requires Records(x) == Records(y)
    ensures |x| == |y| && forall i: nat :: i < |x| ==> RecordOf(x[i]) == RecordOf(y[i])
  {
    assert |Records(x)| == |x| && |Records(y)| == |y|;
    forall i: nat | i < |x|
      ensures RecordOf(x[i]) == RecordOf(y[i])
    {
      assert Records(x)[i] == Records(y)[i];
    }
  }

  lemma {:induction false} TotalsFromRecords(x: seq<EpochChild>, y: seq<EpochChild>)
    requires |x| == |y| && forall i: nat :: i < |x| ==> RecordOf(x[i]) == RecordOf(y[i])
    ensures TotalLots(x) == TotalLots(y) && TotalEvents(x) == TotalEvents(y)
  {
    if x != [] {
      var n := |x| - 1;
      assert RecordOf(x[n]) == RecordOf(y[n]);
      TotalsFromRecords(x[..n], y[..n]);
    }
  }

  /** Two accepted groups under one policy pair have one digest, and one record, exactly when their records agree. */
  lemma {:induction false} NodeRecords(keys: Keys, x: seq<EpochChild>, y: seq<EpochChild>)
    requires EvaluateNode(keys, x).Ok? && EvaluateNode(keys, y).Ok?
    ensures x != [] && y != []
    ensures PairOf(x[0]) == PairOf(y[0]) ==>
      && (BatchOf(NodeOf(keys, x)) == BatchOf(NodeOf(keys, y)) <==> Records(x) == Records(y))
      && (RecordOf(NodeOf(keys, x)) == RecordOf(NodeOf(keys, y)) <==> Records(x) == Records(y))
  {
    hide EvaluateNode;
    hide Records;
    AggregateStandsForGroup(keys, x);
    AggregateStandsForGroup(keys, y);
    if Records(x) == Records(y) {
      RecordsTell(x, y);
      TotalsFromRecords(x, y);
      assert RecordOf(x[0]) == RecordOf(y[0]) && RecordOf(x[|x| - 1]) == RecordOf(y[|x| - 1]);
    }
  }

  ghost predicate OnePair(nodes: seq<EpochChild>, pair: (Digest, Digest))
  {
    forall c :: c in nodes ==> PairOf(c) == pair
  }

  lemma {:induction false} GroupsAndRests(x: seq<EpochChild>, y: seq<EpochChild>)
    requires x != [] && y != []
    ensures Records(x) == Records(y) <==>
      && Records(x[..GroupSize(x)]) == Records(y[..GroupSize(y)])
      && Records(x[GroupSize(x)..]) == Records(y[GroupSize(y)..])
  {
    var k, l := GroupSize(x), GroupSize(y);
    assert x == x[..k] + x[k..] && y == y[..l] + y[l..];
    if k == l {
      RecordsParts(x[..k], x[k..], y[..l], y[l..]);
    } else {
      assert |Records(x)| == |x| && |Records(y)| == |y|;
      assert |Records(x[..k])| == k && |Records(y[..l])| == l;
    }
  }

  /** Two lists under one pair have the same records exactly when their levels do. */
  lemma {:induction false} LevelRecords(keys: Keys, x: seq<EpochChild>, y: seq<EpochChild>, pair: (Digest, Digest))
    requires NextLevel(keys, x).Ok? && NextLevel(keys, y).Ok? && OnePair(x, pair) && OnePair(y, pair)
    ensures Records(NextLevel(keys, x).value) == Records(NextLevel(keys, y).value) <==> Records(x) == Records(y)
    decreases |x|
  {
    hide EvaluateNode;
    if x == [] || y == [] {
      LevelLength(keys, x);
      LevelLength(keys, y);
      assert |Records(x)| == |x| && |Records(y)| == |y|;
      assert |Records(NextLevel(keys, x).value)| == (|x| + 7) / 8;
      assert |Records(NextLevel(keys, y).value)| == (|y| + 7) / 8;
    } else {
      var k, l := GroupSize(x), GroupSize(y);
      LevelUnfolds(keys, x);
      LevelUnfolds(keys, y);
      var first, second := NodeOf(keys, x[..k]), NodeOf(keys, y[..l]);
      LevelRecords(keys, x[k..], y[l..], pair);
      assert x[0] in x && y[0] in y;
      NodeRecords(keys, x[..k], y[..l]);
      GroupsAndRests(x, y);
      OneRecord(first, second);
      RecordsParts([first], NextLevel(keys, x[k..]).value, [second], NextLevel(keys, y[l..]).value);
    }
  }

  lemma {:induction false} OneRecord(a: EpochChild, b: EpochChild)
    ensures Records([a]) == Records([b]) <==> RecordOf(a) == RecordOf(b)
  {
    assert Records([a])[0] == RecordOf(a) && Records([b])[0] == RecordOf(b);
  }

  /** The level of at most eight nodes is their one aggregate. */
  lemma {:induction false} LevelOfGroup(keys: Keys, x: seq<EpochChild>)
    requires 1 <= |x| <= MAX_FAN_IN && NextLevel(keys, x).Ok?
    ensures EvaluateNode(keys, x).Ok? && NextLevel(keys, x).value[0] == NodeOf(keys, x)
  {
    LevelExactly(keys, x);
    assert Group(x, 0) == x;
  }

  /** Blocks of a level are alike exactly when the blocks below them are. */
  lemma {:induction false} AlikeAbove(keys: Keys, d: nat, x: seq<EpochChild>, y: seq<EpochChild>,
                                      pair: (Digest, Digest))
    requires x != [] && y != [] && OnePair(x, pair) && OnePair(y, pair)
    requires NextLevel(keys, x).Ok? && NextLevel(keys, y).Ok? && (d == 0 ==> |x| <= 8 && |y| <= 8)
    ensures var a, b := NextLevel(keys, x).value, NextLevel(keys, y).value;
      a != [] && b != [] && (Alike(d, a, b) <==> Alike(d + 1, x, y))
  {
    hide NextLevel;
    hide EvaluateNode;
    LevelLength(keys, x);
    LevelLength(keys, y);
    if d == 0 {
      LevelOfGroup(keys, x);
      LevelOfGroup(keys, y);
      assert x[0] in x && y[0] in y;
      NodeRecords(keys, x, y);
    } else {
      LevelRecords(keys, x, y, pair);
    }
  }

  // ----- one level up

  lemma {:induction false} BlockFacts(nodes: seq<EpochChild>, d: nat, j: nat, pair: (Digest, Digest))
    requires StartOf(d, j) < |nodes| && OnePair(nodes, pair)
    ensures OnePair(Block(nodes, d, j), pair) && |Block(nodes, d, j)| <= Pow8(d)
  {
    BlockEnds(d, j);
  }

  lemma {:induction false} BlockOkAbove(keys: Keys, nodes: seq<EpochChild>, d: nat, j: nat)
    requires NextLevel(keys, nodes).Ok? && StartOf(d + 1, j) < |nodes|
    ensures StartOf(d, j) < |NextLevel(keys, nodes).value|
    ensures BlockOk(NextLevel(keys, nodes).value, d, j) <==> BlockOk(nodes, d + 1, j)
  {
    hide NextLevel;
    hide Block;
    BlockOfLevel(keys, nodes, d, j);
    var x := Block(nodes, d + 1, j);
    LevelKeepsTotals(keys, x);
    LevelKeepsLinkage(keys, x);
  }

  lemma {:induction false} SiblingsAbove(keys: Keys, nodes: seq<EpochChild>, d: nat, j: nat, k: nat,
                                         pair: (Digest, Digest))
    requires NextLevel(keys, nodes).Ok? && OnePair(nodes, pair)
    requires StartOf(d + 1, j) < |nodes| && StartOf(d + 1, k) < |nodes|
    ensures StartOf(d, j) < |NextLevel(keys, nodes).value| && StartOf(d, k) < |NextLevel(keys, nodes).value|
    ensures SiblingsDiffer(NextLevel(keys, nodes).value, d, j, k) <==> SiblingsDiffer(nodes, d + 1, j, k)
  {
    hide NextLevel;
    hide Block;
    hide Alike;
    hide StartOf;
    BlockOfLevel(keys, nodes, d, j);
    BlockOfLevel(keys, nodes, d, k);
    BlockFacts(nodes, d + 1, j, pair);
    BlockFacts(nodes, d + 1, k, pair);
    assert Pow8(1) == 8;
    AlikeAbove(keys, d, Block(nodes, d + 1, j), Block(nodes, d + 1, k), pair);
  }

  /** The condition on a width holds above exactly when that on the eightfold width holds below. */
  lemma {:induction false} LevelOkAbove(keys: Keys, nodes: seq<EpochChild>, d: nat, pair: (Digest, Digest))
    requires NextLevel(keys, nodes).Ok? && OnePair(nodes, pair)
    ensures LevelOk(NextLevel(keys, nodes).value, d) <==> LevelOk(nodes, d + 1)
  {
    hide NextLevel;
    hide BlockOk;
    hide SiblingsDiffer;
    hide StartOf;
    var next, above := NextLevel(keys, nodes).value, d + 1;
    if LevelOk(next, d) {
      forall j: nat | StartOf(above, j) < |nodes|
        ensures BlockOk(nodes, above, j)
      {
        BlockOkAbove(keys, nodes, d, j);
      }
      forall j: nat, k: nat | StartOf(above, j) < |nodes| && StartOf(above, k) < |nodes|
        ensures SiblingsDiffer(nodes, above, j, k)
      {
        SiblingsAbove(keys, nodes, d, j, k, pair);
      }
    }
    if LevelOk(nodes, above) {
      forall j: nat | StartOf(d, j) < |next|
        ensures BlockOk(next, d, j)
      {
        BlockOfLevel(keys, nodes, d, j);
        BlockOkAbove(keys, nodes, d, j);
      }
      forall j: nat, k: nat | StartOf(d, j) < |next| && StartOf(d, k) < |next|
        ensures SiblingsDiffer(next, d, j, k)
      {
        BlockOfLevel(keys, nodes, d, j);
        BlockOfLevel(keys, nodes, d, k);
        SiblingsAbove(keys, nodes, d, j, k, pair);
      }
    }
  }

  // ----- the bottom level

  lemma {:induction false} BottomBlock(keys: Keys, nodes: seq<EpochChild>, j: nat)
    requires j < |nodes| && ChildOk(keys, nodes[j])
    ensures StartOf(0, j) == j && Block(nodes, 0, j) == [nodes[j]] && BlockOk(nodes, 0, j)
  {
    NextStart(0, j);
    NextStart(0, j + 1);
    OneTotal(nodes[j]);
  }

  lemma {:induction false} OneTotal(c: EpochChild)
    ensures TotalLots([c]) == LotsOf(c)
  {
    assert [c][..0] == [];
    assert TotalLots([c][..0]) == 0;
  }

  /** At the bottom siblings differ exactly when each group of eight has distinct batches. */
  lemma {:induction false} BottomExactly(keys: Keys, nodes: seq<EpochChild>)
    requires forall c :: c in nodes ==> ChildOk(keys, c)
    ensures LevelOk(nodes, 0) <==> forall j: nat :: 8 * j < |nodes| ==> DistinctBatches(Group(nodes, j))
  {
    hide ChildOk;
    hide Block;
    hide BlockOk;
    hide StartOf;
    forall j: nat
      ensures StartOf(0, j) == j && (j < |nodes| ==> Block(nodes, 0, j) == [nodes[j]] && BlockOk(nodes, 0, j))
    {
      NextStart(0, j);
      if j < |nodes| { BottomBlock(keys, nodes, j); }
    }
    if LevelOk(nodes, 0) {
      forall j: nat, a: nat, b: nat | 8 * j < |nodes| && a < b < |Group(nodes, j)|
        ensures BatchOf(Group(nodes, j)[a]) != BatchOf(Group(nodes, j)[b])
      {
        assert SiblingsDiffer(nodes, 0, 8 * j + a, 8 * j + b);
      }
    }
    if forall j: nat :: 8 * j < |nodes| ==> DistinctBatches(Group(nodes, j)) {
      forall j: nat, k: nat | StartOf(0, j) < |nodes| && StartOf(0, k) < |nodes|
        ensures SiblingsDiffer(nodes, 0, j, k)
      {
        if j < k && j / MAX_FAN_IN == k / MAX_FAN_IN { SameGroupDiffers(nodes, j, k); }
      }
    }
  }

  lemma {:induction false} SameGroupDiffers(nodes: seq<EpochChild>, j: nat, k: nat)
    requires j < k < |nodes| && j / 8 == k / 8
    requires forall g: nat :: 8 * g < |nodes| ==> DistinctBatches(Group(nodes, g))
    ensures BatchOf(nodes[j]) != BatchOf(nodes[k])
  {
    var g := j / 8;
    assert Group(nodes, g)[j - 8 * g] == nodes[j] && Group(nodes, g)[k - 8 * g] == nodes[k];
  }

  lemma {:induction false} SliceTotals(nodes: seq<EpochChild>, i: nat, j: nat)
    requires i <= j <= |nodes|
    ensures TotalLots(nodes[i..j]) <= TotalLots(nodes) && TotalEvents(nodes[i..j]) <= TotalEvents(nodes)
  {
    hide TotalLots;
    hide TotalEvents;
    assert nodes == nodes[..i] + (nodes[i..j] + nodes[j..]);
    TotalsConcat(nodes[..i], nodes[i..j] + nodes[j..]);
    TotalsConcat(nodes[i..j], nodes[j..]);
  }

  lemma {:induction false} SliceLinked(nodes: seq<EpochChild>, i: nat, j: nat)
    requires i <= j <= |nodes| && Linked(nodes)
    ensures Linked(nodes[i..j])
  {
    hide EpochOf;
    hide PairOf;
    assert forall k: nat :: k < j - i ==> nodes[i..j][k] == nodes[i + k];
  }

  lemma {:induction false} SliceOfChain(keys: Keys, nodes: seq<EpochChild>, i: nat, j: nat)
    requires i <= j <= |nodes| && (forall c :: c in nodes ==> ChildOk(keys, c)) && Linked(nodes)
    ensures (forall c :: c in nodes[i..j] ==> ChildOk(keys, c)) && Linked(nodes[i..j])
    ensures TotalLots(nodes[i..j]) <= TotalLots(nodes) && TotalEvents(nodes[i..j]) <= TotalEvents(nodes)
  {
    hide ChildOk;
    hide Linked;
    SliceTotals(nodes, i, j);
    SliceLinked(nodes, i, j);
    assert forall c :: c in nodes[i..j] ==> c in nodes;
  }

  /** A chain whose counts are in range passes one level exactly when each group has distinct batches. */
  lemma {:induction false} FirstLevelExactly(keys: Keys, nodes: seq<EpochChild>)
    requires (forall c :: c in nodes ==> ChildOk(keys, c)) && Linked(nodes)
    requires TotalLots(nodes) < U64_LIMIT && TotalEvents(nodes) < U64_LIMIT
    ensures NextLevel(keys, nodes).Ok? <==> LevelOk(nodes, 0)
  {
    hide ChildOk;
    hide EvaluateNode;
    hide DistinctBatches;
    hide NextLevel;
    hide LevelOk;
    LevelExactly(keys, nodes);
    BottomExactly(keys, nodes);
    forall j: nat | 8 * j < |nodes|
      ensures EvaluateNode(keys, Group(nodes, j)).Ok? <==> DistinctBatches(Group(nodes, j))
    {
      SliceOfChain(keys, nodes, 8 * j, Least(8 * j + 8, |nodes|));
      NodeAcceptsExactly(keys, Group(nodes, j));
    }
  }

  // ----- the whole tree

  lemma {:induction false} WideLevels(n: nat, d: nat)
    requires 1 <= n <= 8
    ensures IsLevel(n, d) <==> d == 0
  {
  }

  lemma {:induction false} LevelsAbove(n: nat, d: nat)
    requires n > 8
    ensures IsLevel((n + 7) / 8, d) <==> IsLevel(n, d + 1)
  {
    assert Pow8(d + 1) == 8 * Pow8(d) && Pow8(0) == 1;
  }

  lemma {:induction false} RootExactly(keys: Keys, nodes: seq<EpochChild>)
    requires |nodes| <= MAX_FAN_IN
    ensures EvaluateNode(keys, nodes).Ok? <==> Reducible(keys, nodes)
  {
    hide ChildOk;
    hide LevelOk;
    hide EvaluateNode;
    NodeAcceptsExactly(keys, nodes);
    if nodes != [] && forall c :: c in nodes ==> ChildOk(keys, c) {
      BottomExactly(keys, nodes);
      assert Group(nodes, 0) == nodes;
      forall d: nat
        ensures IsLevel(|nodes|, d) <==> d == 0
      {
        WideLevels(|nodes|, d);
      }
    }
  }

  lemma {:induction false} LinkedPair(nodes: seq<EpochChild>)
    requires nodes != [] && Linked(nodes)
    ensures OnePair(nodes, PairOf(nodes[0]))
  {
  }

  lemma {:induction false} LevelsShift(keys: Keys, nodes: seq<EpochChild>)
    requires |nodes| > 8 && NextLevel(keys, nodes).Ok? && Linked(nodes)
    ensures (forall d: nat :: IsLevel(|nodes|, d) ==> LevelOk(nodes, d)) <==>
      && LevelOk(nodes, 0)
      && forall d: nat :: IsLevel(|NextLevel(keys, nodes).value|, d) ==> LevelOk(NextLevel(keys, nodes).value, d)
  {
    hide LevelOk;
    hide NextLevel;
    hide IsLevel;
    var next := NextLevel(keys, nodes).value;
    LinkedPair(nodes);
    LevelLength(keys, nodes);
    forall d: nat
      ensures IsLevel(|next|, d) <==> IsLevel(|nodes|, d + 1)
      ensures LevelOk(next, d) <==> LevelOk(nodes, d + 1)
    {
      LevelsAbove(|nodes|, d);
      LevelOkAbove(keys, nodes, d, PairOf(nodes[0]));
    }
    assert IsLevel(|nodes|, 0) by { BottomIsLevel(|nodes|); }
    if LevelOk(nodes, 0) && forall d: nat :: IsLevel(|next|, d) ==> LevelOk(next, d) {
      forall d: nat | IsLevel(|nodes|, d)
        ensures LevelOk(nodes, d)
      {
        if d > 0 { assert IsLevel(|next|, d - 1); }
      }
    }
  }

  lemma {:induction false} BottomIsLevel(n: nat)
    ensures IsLevel(n, 0)
  {
  }

  /** The nodes of a level are acceptable when the blocks of eight below advance and count in range. */
  lemma {:induction false} NodesAreOk(keys: Keys, nodes: seq<EpochChild>)
    requires NextLevel(keys, nodes).Ok? && LevelOk(nodes, 1)
    ensures forall c :: c in NextLevel(keys, nodes).value ==> ChildOk(keys, c)
  {
    hide NextLevel;
    hide EvaluateNode;
    hide ChildOk;
    var next := NextLevel(keys, nodes).value;
    LevelExactly(keys, nodes);
    LevelLength(keys, nodes);
    forall j: nat | j < |next|
      ensures ChildOk(keys, next[j])
    {
      NextStart(0, j);
      NextStart(0, j + 1);
      assert Block(nodes, 1, j) == Group(nodes, j);
      assert BlockOk(nodes, 1, j);
      NodeIsOk(keys, Group(nodes, j));
    }
  }

  lemma {:induction false} NodeIsOk(keys: Keys, group: seq<EpochChild>)
    requires EvaluateNode(keys, group).Ok? && group != []
    requires OldOf(group[0]) != NewOf(group[|group| - 1]) && TotalLots(group) * 64 < U64_LIMIT
    ensures ChildOk(keys, NodeOf(keys, group))
  {
    hide EvaluateNode;
    AggregateStandsForGroup(keys, group);
    TotalsInRange(keys, group);
  }

  /** A reducible list of more than eight passes a level and stays reducible. */
  lemma {:induction false} LevelStaysReducible(keys: Keys, nodes: seq<EpochChild>)
    requires |nodes| > 8 && Reducible(keys, nodes)
    ensures NextLevel(keys, nodes).Ok? && Reducible(keys, NextLevel(keys, nodes).value)
  {
    hide ChildOk;
    hide LevelOk;
    hide NextLevel;
    hide Linked;
    BottomIsLevel(|nodes|);
    FirstLevelExactly(keys, nodes);
    LevelsShift(keys, nodes);
    LevelKeepsTotals(keys, nodes);
    LevelKeepsLinkage(keys, nodes);
    LevelsAbove(|nodes|, 0);
    BottomIsLevel((|nodes| + 7) / 8);
    NodesAreOk(keys, nodes);
  }

  /** The reduction succeeds exactly on reducible lists. */
  lemma {:induction false} ReducesExactly(keys: Keys, nodes: seq<EpochChild>)
    ensures Reduce(keys, nodes).Ok? <==> Reducible(keys, nodes)
    decreases |nodes|
  {
    hide Reducible;
    hide NextLevel;
    if |nodes| <= MAX_FAN_IN {
      RootExactly(keys, nodes);
    } else {
      if Reducible(keys, nodes) {
        LevelStaysReducible(keys, nodes);
        LevelLength(keys, nodes);
        ReducesExactly(keys, NextLevel(keys, nodes).value);
      }
      if Reduce(keys, nodes).Ok? {
        LevelLength(keys, nodes);
        ReducesExactly(keys, NextLevel(keys, nodes).value);
        ReducibleBelow(keys, nodes);
      }
    }
  }

  lemma {:induction false} ReducibleBelow(keys: Keys, nodes: seq<EpochChild>)
    requires |nodes| > 8 && Reduce(keys, nodes).Ok? && NextLevel(keys, nodes).Ok?
    requires Reducible(keys, NextLevel(keys, nodes).value)
    ensures Reducible(keys, nodes)
  {
    hide ChildOk;
    hide LevelOk;
    hide NextLevel;
    hide Linked;
    hide Reduce;
    ReductionMeansList(keys, nodes);
    FirstLevelExactly(keys, nodes);
    LevelsShift(keys, nodes);
  }
}
