/** Climbing a recorded authentication path from a leaf to the aggregate it claims. */
module Authentication {
  import opened Primitives
  import opened Digests
  import opened Epoch

  /** One recorded parent: the ordered children and which of them lies on the path. */
  datatype Level = Level(keys: Keys, childIndex: nat, children: seq<EpochChild>)

  /** Hexadecimal fields are represented by the values they decode to. */
  datatype AuthenticationPath = AuthenticationPath(protocolVersion: U8, transactionHash: Option<Digest>,
                                                   levels: seq<Level>)

  datatype AuthError = Depth | TransactionHash | WrongKeys | ChildIndex | NotTheTarget | NodeRejected(error: EpochError)

  const MAX_LEVELS: nat := 64

  function Step(keys: Keys, node: EpochChild, level: Level): Result<EpochChild, AuthError>
  {
    if level.keys != keys then Err(WrongKeys)
    else if level.childIndex >= |level.children| then Err(ChildIndex)
    else if level.children[level.childIndex] != node then Err(NotTheTarget)
    else
      var parent := EvaluateNode(keys, level.children);
      if parent.Err? then Err(NodeRejected(parent.error)) else Ok(Aggregate(AbiEncode(parent.value)))
  }

  /** The node reached from `node` through the levels, bottom-up. */
  function Climb(keys: Keys, node: EpochChild, levels: seq<Level>): Result<EpochChild, AuthError>
  {
    if levels == [] then Ok(node)
    else
      var below := Climb(keys, node, levels[..|levels| - 1]);
      if below.Err? then below else Step(keys, below.value, levels[|levels| - 1])
  }

  function Verify(keys: Keys, leaf: Words, path: AuthenticationPath): Result<Words, AuthError>
  {
    if path.protocolVersion != 2 || path.levels == [] || |path.levels| > MAX_LEVELS then Err(Depth)
    else if path.transactionHash.None? then Err(TransactionHash)
    else
      var alone := EvaluateNode(keys, [Leaf(leaf)]);
      if alone.Err? then Err(NodeRejected(alone.error))
      else
        var top := Climb(keys, Leaf(leaf), path.levels);
        if top.Err? then Err(top.error) else Ok(top.value.words)
  }

  lemma {:induction false} ClimbErrorsPersist(keys: Keys, node: EpochChild, levels: seq<Level>, n: nat)
    requires n <= |levels| && Climb(keys, node, levels[..n]).Err?
    ensures Climb(keys, node, levels) == Climb(keys, node, levels[..n])
  {
    if n < |levels| {
      var shorter := levels[..|levels| - 1];
      assert shorter[..n] == levels[..n];
      ClimbErrorsPersist(keys, node, shorter, n);
    } else {
      assert levels[..n] == levels;
    }
  }

  /** `verify_authentication`: header checks, the leaf on its own, then one parent per level. */
  method VerifyAuthentication(keys: Keys, leaf: Words, path: AuthenticationPath) returns (r: Result<Words, AuthError>)
    ensures r == Verify(keys, leaf, path)
  {
    if path.protocolVersion != 2 || path.levels == [] || |path.levels| > MAX_LEVELS { return Err(Depth); }
    if path.transactionHash.None? { return Err(TransactionHash); }
    var alone := Evaluate(keys, [Leaf(leaf)]);
    if alone.Err? { return Err(NodeRejected(alone.error)); }
    var current := Leaf(leaf);
    for i := 0 to |path.levels|
      invariant Climb(keys, Leaf(leaf), path.levels[..i]) == Ok(current)
    {
      assert path.levels[..i + 1][..i] == path.levels[..i];
      var next := Step(keys, current, path.levels[i]);
      if next.Err? {
        ClimbErrorsPersist(keys, Leaf(leaf), path.levels, i + 1);
        return Err(next.error);
      }
      current := next.value;
    }
    assert path.levels[..|path.levels|] == path.levels;
    return Ok(current.words);
  }

  // ----- what a verified path is

  /** The node a recorded level stands for. */
  function NodeOf(level: Level): EpochChild
    requires EvaluateNode(level.keys, level.children).Ok?
  {
    Aggregate(AbiEncode(EvaluateNode(level.keys, level.children).value))
  }

  /** Level `i` evaluates under the keys and its selected child is the leaf, or the node of the level below. */
  ghost predicate LevelFollows(keys: Keys, leaf: Words, levels: seq<Level>, i: nat)
    requires i < |levels|
  {
    var level := levels[i];
    && level.keys == keys && level.childIndex < |level.children| && EvaluateNode(keys, level.children).Ok?
    && if i == 0 then level.children[level.childIndex] == Leaf(leaf)
       else EvaluateNode(levels[i - 1].keys, levels[i - 1].children).Ok?
            && level.children[level.childIndex] == NodeOf(levels[i - 1])
  }

  lemma {:induction false} ClimbsExactly(keys: Keys, leaf: Words, levels: seq<Level>)
    requires levels != []
    ensures Climb(keys, Leaf(leaf), levels).Ok? <==>
        forall i: nat :: i < |levels| ==> LevelFollows(keys, leaf, levels, i)
    ensures Climb(keys, Leaf(leaf), levels).Ok? ==>
      var top := levels[|levels| - 1];
      EvaluateNode(top.keys, top.children).Ok? && Climb(keys, Leaf(leaf), levels).value == NodeOf(top)
  {
    hide EvaluateNode;
    hide LevelFollows;
    var last := |levels| - 1;
    var below := levels[..last];
    if below != [] { ClimbsExactly(keys, leaf, below); }
    LastFollows(keys, leaf, levels);
    forall i: nat | i < last
      ensures LevelFollows(keys, leaf, levels, i) <==> LevelFollows(keys, leaf, below, i)
    {
      FollowsInPrefix(keys, leaf, levels, last, i);
    }
  }

  lemma {:induction false} FollowsInPrefix(keys: Keys, leaf: Words, levels: seq<Level>, last: nat, i: nat)
    requires i < last <= |levels|
    ensures LevelFollows(keys, leaf, levels, i) <==> LevelFollows(keys, leaf, levels[..last], i)
  {
    hide EvaluateNode;
  }

  /** The last step of a climb succeeds exactly when the last level follows. */
  lemma {:induction false} LastFollows(keys: Keys, leaf: Words, levels: seq<Level>)
    requires levels != []
    requires var below := levels[..|levels| - 1];
      below != [] && Climb(keys, Leaf(leaf), below).Ok? ==>
        var top := below[|below| - 1];
        EvaluateNode(top.keys, top.children).Ok? && Climb(keys, Leaf(leaf), below).value == NodeOf(top)
    ensures var last, below := |levels| - 1, Climb(keys, Leaf(leaf), levels[..|levels| - 1]);
      && (Climb(keys, Leaf(leaf), levels).Ok? ==> below.Ok?)
      && (below.Ok? ==> (Climb(keys, Leaf(leaf), levels).Ok? <==> LevelFollows(keys, leaf, levels, last)))
      && (Climb(keys, Leaf(leaf), levels).Ok? ==>
           EvaluateNode(levels[last].keys, levels[last].children).Ok?
           && Climb(keys, Leaf(leaf), levels).value == NodeOf(levels[last]))
  {
    hide EvaluateNode;
  }

  /**
   * A path verifies exactly when its header is right, it has 1 to 64 levels, the leaf is acceptable and each
   * level selects the node below; the result is the last level's node.
   */
  lemma {:induction false} VerifiesExactly(keys: Keys, leaf: Words, path: AuthenticationPath)
    ensures Verify(keys, leaf, path).Ok? <==>
      && path.protocolVersion == 2 && 1 <= |path.levels| <= 64 && path.transactionHash.Some?
      && ChildOk(keys, Leaf(leaf))
      && forall i: nat :: i < |path.levels| ==> LevelFollows(keys, leaf, path.levels, i)
    ensures Verify(keys, leaf, path).Ok? ==>
      var top := path.levels[|path.levels| - 1];
      EvaluateNode(top.keys, top.children).Ok? && Verify(keys, leaf, path).value == NodeOf(top).words
  {
    hide LevelFollows;
    hide EvaluateNode;
    LoneLeaf(keys, leaf);
    if path.levels != [] { ClimbsExactly(keys, leaf, path.levels); }
  }

  lemma {:induction false} LoneLeaf(keys: Keys, leaf: Words)
    ensures EvaluateNode(keys, [Leaf(leaf)]).Ok? <==> ChildOk(keys, Leaf(leaf))
  {
    NodeAcceptsExactly(keys, [Leaf(leaf)]);
    var one := [Leaf(leaf)];
    assert one[0] in one && one[..|one| - 1] == [];
    assert TotalLots(one) == TotalLots(one[..|one| - 1]) + 1;
    assert TotalEvents(one) == TotalEvents(one[..|one| - 1]) + EventsOf(Leaf(leaf));
  }

  // ----- the root pins the leaf

  lemma {:induction false} ClimbKind(keys: Keys, leaf: Words, levels: seq<Level>)
    requires Climb(keys, Leaf(leaf), levels).Ok?
    ensures Climb(keys, Leaf(leaf), levels).value.Leaf? <==> levels == []
  {
  }

  /** An acceptable aggregate is determined by its epoch, policy pair and record. */
  lemma {:induction false} AggregateDetermined(keys: Keys, a: EpochChild, b: EpochChild)
    requires ChildOk(keys, a) && ChildOk(keys, b) && a.Aggregate?
    requires RecordOf(a) == RecordOf(b) && EpochOf(a) == EpochOf(b) && PairOf(a) == PairOf(b)
    ensures a == b
  {
    assert a.words[0] == b.words[0] && a.words[4] == b.words[4] && a.words[5] == b.words[5];
    assert forall i :: 0 <= i < 11 ==> a.words[i] == b.words[i];
    assert a.words == b.words;
  }

  /** Two accepted nodes with the same public values agree, child by child, on record, epoch and policy pair. */
  lemma {:induction false} NodePinsChildren(keys: Keys, a: seq<EpochChild>, b: seq<EpochChild>, i: nat)
    requires EvaluateNode(keys, a).Ok? && EvaluateNode(keys, b).Ok? && i < |a|
    requires AbiEncode(EvaluateNode(keys, a).value) == AbiEncode(EvaluateNode(keys, b).value)
    ensures |a| == |b| && ChildOk(keys, a[i]) && ChildOk(keys, b[i])
    ensures RecordOf(a[i]) == RecordOf(b[i]) && EpochOf(a[i]) == EpochOf(b[i]) && PairOf(a[i]) == PairOf(b[i])
  {
    NodeAcceptsExactly(keys, a);
    NodeAcceptsExactly(keys, b);
    var x, y := AbiEncode(EvaluateNode(keys, a).value), AbiEncode(EvaluateNode(keys, b).value);
    assert x[0] == y[0] && x[3] == y[3];
    assert Records(a) == Records(b);
    assert |Records(a)| == |a| && |Records(b)| == |b|;
    assert Records(a)[i] == RecordOf(a[i]) && Records(b)[i] == RecordOf(b[i]);
  }

  /** The leaf fields an aggregate commits to: every word but the nullifier. */
  predicate SameCommittedFields(a: Words, b: Words)
  {
    && a[0] == b[0] && a[1] == b[1] && a[2] == b[2] && a[3] == b[3] && a[4] == b[4] && a[5] == b[5]
    && a[7] == b[7] && a[8] == b[8] && a[9] == b[9] && a[10] == b[10]
  }

  /** Read from the root down, the paths choose the same child as long as both go on. */
  predicate SamePositions(a: seq<Level>, b: seq<Level>)
  {
    a == [] || b == [] ||
    (a[|a| - 1].childIndex == b[|b| - 1].childIndex && SamePositions(a[..|a| - 1], b[..|b| - 1]))
  }

  /** The last level of a climb selects the node reached below it. */
  lemma {:induction false} ClimbLast(keys: Keys, leaf: Words, levels: seq<Level>)
    requires levels != [] && Climb(keys, Leaf(leaf), levels).Ok?
    ensures var below, last := Climb(keys, Leaf(leaf), levels[..|levels| - 1]), levels[|levels| - 1];
      && below.Ok? && last.childIndex < |last.children| && last.children[last.childIndex] == below.value
      && EvaluateNode(keys, last.children).Ok?
      && Climb(keys, Leaf(leaf), levels).value == Aggregate(AbiEncode(EvaluateNode(keys, last.children).value))
  {
  }

  /**
   * Two paths that end in the same aggregate and choose the same child positions from the root down
   * have the same depth and start from leaves that agree on every committed field.
   */
  lemma {:induction false} RootPinsLeaf(keys: Keys, leafA: Words, a: seq<Level>, leafB: Words, b: seq<Level>)
    requires Climb(keys, Leaf(leafA), a).Ok? && a != []
    requires Climb(keys, Leaf(leafB), b) == Climb(keys, Leaf(leafA), a)
    requires SamePositions(a, b)
    ensures |a| == |b| && SameCommittedFields(leafA, leafB)
    decreases |a|
  {
    ClimbKind(keys, leafA, a);
    ClimbKind(keys, leafB, b);
    var restA, restB := a[..|a| - 1], b[..|b| - 1];
    ClimbLast(keys, leafA, a);
    ClimbLast(keys, leafB, b);
    var nodeA, nodeB := Climb(keys, Leaf(leafA), restA).value, Climb(keys, Leaf(leafB), restB).value;
    NodePinsChildren(keys, a[|a| - 1].children, b[|b| - 1].children, a[|a| - 1].childIndex);
    ClimbKind(keys, leafA, restA);
    ClimbKind(keys, leafB, restB);
    if nodeA.Aggregate? {
      AggregateDetermined(keys, nodeA, nodeB);
      RootPinsLeaf(keys, leafA, restA, leafB, restB);
    } else {
      LeafFieldsPinned(keys, leafA, leafB);
    }
  }

  /** The same for whole authentications: one root and one choice of positions pin the depth and the leaf. */
  lemma {:induction false} VerifiedRootPinsLeaf(keys: Keys, leafA: Words, a: AuthenticationPath, leafB: Words,
                                                b: AuthenticationPath)
    requires Verify(keys, leafA, a).Ok? && Verify(keys, leafB, b) == Verify(keys, leafA, a)
        && SamePositions(a.levels, b.levels)
    ensures |a.levels| == |b.levels| && SameCommittedFields(leafA, leafB)
  {
    ClimbKind(keys, leafA, a.levels);
    ClimbKind(keys, leafB, b.levels);
    var x, y := Climb(keys, Leaf(leafA), a.levels).value, Climb(keys, Leaf(leafB), b.levels).value;
    assert x == Aggregate(x.words) == y;
    RootPinsLeaf(keys, leafA, a.levels, leafB, b.levels);
  }

  lemma {:induction false} LeafFieldsPinned(keys: Keys, a: Words, b: Words)
    requires ChildOk(keys, Leaf(a)) && ChildOk(keys, Leaf(b))
    requires RecordOf(Leaf(a)) == RecordOf(Leaf(b))
    requires EpochOf(Leaf(a)) == EpochOf(Leaf(b)) && PairOf(Leaf(a)) == PairOf(Leaf(b))
    ensures SameCommittedFields(a, b)
  {
  }

  /** The nullifier word of a leaf is not committed: replacing it never changes a node's outcome. */
  lemma {:induction false} NullifierWordIsFree(keys: Keys, children: seq<EpochChild>, i: nat, other: Digest)
    requires i < |children| && children[i].Leaf?
    ensures EvaluateNode(keys, children[i := Leaf(children[i].words[6 := other])]) == EvaluateNode(keys, children)
  {
    FoldIgnoresNullifier(keys, children, i, other);
  }

  lemma {:induction false} FoldIgnoresNullifier(keys: Keys, children: seq<EpochChild>, i: nat, other: Digest)
    requires i < |children| && children[i].Leaf?
    ensures Fold(keys, children[i := Leaf(children[i].words[6 := other])]) == Fold(keys, children)
  {
    var changed := children[i := Leaf(children[i].words[6 := other])];
    var n := |children| - 1;
    if i < n {
      assert changed[..n] == children[..n][i := Leaf(children[i].words[6 := other])];
      FoldIgnoresNullifier(keys, children[..n], i, other);
    } else {
      assert changed[..n] == children[..n];
      var before := Fold(keys, children[..n]);
      if before.Ok? { AbsorbIgnoresNullifier(keys, before.value, children[i].words, other); }
    }
  }

  lemma {:induction false} AbsorbIgnoresNullifier(keys: Keys, acc: Acc, w: Words, other: Digest)
    ensures Absorb(keys, acc, Leaf(w[6 := other])) == Absorb(keys, acc, Leaf(w))
  {
  }
}
