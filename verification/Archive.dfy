/** The archive that records, while the reduction tree is built, every leaf's authentication path. */
module Archive {
  import opened Primitives
  import opened Sequences
  import opened Digests
  import opened Epoch
  import opened ReductionTree
  import opened Authentication

  datatype ArchiveError = NoChildren | DescendantCount | Rejected(error: EpochError) | NoOriginalLeaves | BadDescendant

  /** Every child has leaves, all in range and none listed twice. */
  ghost predicate ValidDescendants(descendants: seq<seq<nat>>, n: nat)
  {
    (forall k: nat :: k < |descendants| ==> descendants[k] != []) && DistinctBelow(Flatten(descendants), n)
  }

  ghost predicate DistinctBelow(s: seq<nat>, n: nat)
  {
    (forall i :: i in s ==> i < n) && NoRepeats(s)
  }

  /** The checks `append_level` makes before it changes any entry. */
  method CheckDescendants(descendants: seq<seq<nat>>, n: nat) returns (r: Result<(), ArchiveError>)
    ensures r.Ok? <==> ValidDescendants(descendants, n)
  {
    var seen: set<nat> := {};
    for k := 0 to |descendants|
      invariant forall j: nat :: j < k ==> descendants[j] != []
      invariant DistinctBelow(Flatten(descendants[..k]), n) && forall i :: i in seen <==> i in Flatten(descendants[..k])
    {
      FlattenPrefix(descendants, k);
      if descendants[k] == [] { return Err(NoOriginalLeaves); }
      var leaves := descendants[k];
      for j := 0 to |leaves|
        invariant var sofar := Flatten(descendants[..k]) + leaves[..j];
          DistinctBelow(sofar, n) && forall i :: i in seen <==> i in sofar
      {
        ghost var sofar := Flatten(descendants[..k]) + leaves[..j];
        assert Flatten(descendants[..k]) + leaves[..j + 1] == sofar + [leaves[j]];
        assert leaves == leaves[..j + 1] + leaves[j + 1..];
        if leaves[j] >= n || leaves[j] in seen {
          RepeatPersists(sofar, leaves[j], n, Flatten(descendants[..k]) + leaves, Flatten(descendants));
          return Err(BadDescendant);
        }
        seen := seen + {leaves[j]};
      }
      assert leaves[..|leaves|] == leaves;
    }
    assert descendants[..|descendants|] == descendants;
    return Ok(());
  }

  lemma {:induction false} FlattenPrefix(descendants: seq<seq<nat>>, k: nat)
    requires k < |descendants|
    ensures Flatten(descendants[..k + 1]) == Flatten(descendants[..k]) + descendants[k]
    ensures Flatten(descendants[..k + 1]) <= Flatten(descendants)
    decreases |descendants| - k
  {
    assert descendants[..k + 1][..k] == descendants[..k];
    if k + 1 < |descendants| {
      FlattenPrefix(descendants, k + 1);
    } else {
      assert descendants[..k + 1] == descendants;
    }
  }

  lemma {:induction false} RepeatPersists(sofar: seq<nat>, bad: nat, n: nat, prefix: seq<nat>, all: seq<nat>)
    requires sofar + [bad] <= prefix <= all && (bad >= n || bad in sofar)
    ensures !DistinctBelow(all, n)
  {
    assert all[|sofar|] == prefix[|sofar|] == (sofar + [bad])[|sofar|] == bad;
    assert bad in all;
    if bad in sofar {
      var a :| 0 <= a < |sofar| && sofar[a] == bad;
      assert all[a] == prefix[a] == (sofar + [bad])[a] == bad;
    }
  }

  // ----- appending one parent level

  ghost predicate PushedUpTo(before: seq<seq<Level>>, after: seq<seq<Level>>, keys: Keys, children: seq<EpochChild>,
                             descendants: seq<seq<nat>>, k: nat)
    requires k <= |descendants|
  {
    && |after| == |before|
    && (forall i: nat :: i < |before| && i !in Flatten(descendants[..k]) ==> after[i] == before[i])
    && forall j: nat, i :: j < k && i in descendants[j] && i < |before| ==>
         after[i] == before[i] + [Level(keys, j, children)]
  }

  lemma {:induction false} NextLeafIsFresh(descendants: seq<seq<nat>>, n: nat, k: nat, j: nat)
    requires ValidDescendants(descendants, n) && k < |descendants| && j < |descendants[k]|
    ensures descendants[k][j] < n
    ensures descendants[k][j] !in Flatten(descendants[..k]) && descendants[k][j] !in descendants[k][..j]
    ensures forall m: nat :: m < k ==> descendants[k][j] !in descendants[m]
  {
    FlattenPrefix(descendants, k);
    FreshInPrefix(Flatten(descendants), Flatten(descendants[..k]), descendants[k], n, j);
    forall m: nat | m < k
      ensures descendants[k][j] !in descendants[m]
    {
      MemberOfFlatten(descendants[..k], m);
      assert descendants[..k][m] == descendants[m];
    }
  }

  lemma {:induction false} FreshInPrefix(flat: seq<nat>, prefix: seq<nat>, here: seq<nat>, n: nat, j: nat)
    requires DistinctBelow(flat, n) && prefix + here <= flat && j < |here|
    ensures here[j] < n && here[j] !in prefix && here[j] !in here[..j]
  {
    var p := |prefix| + j;
    assert flat[p] == (prefix + here)[p] == here[j] && flat[p] in flat;
    assert forall a: nat :: a < |prefix| ==> flat[a] == (prefix + here)[a] == prefix[a];
    assert forall a: nat :: a < j ==> flat[|prefix| + a] == (prefix + here)[|prefix| + a] == here[a];
  }

  lemma {:induction false} MemberOfFlatten(descendants: seq<seq<nat>>, m: nat)
    requires m < |descendants|
    ensures forall i :: i in descendants[m] ==> i in Flatten(descendants)
  {
    if m < |descendants| - 1 { MemberOfFlatten(descendants[..|descendants| - 1], m); }
  }

  /** The push loop for one child's leaves. */
  method PushChild(paths: array<seq<Level>>, leaves: seq<nat>, level: Level)
    requires forall j: nat :: j < |leaves| ==> leaves[j] < paths.Length && leaves[j] !in leaves[..j]
    modifies paths
    ensures forall i: nat :: i < paths.Length ==>
      paths[i] == if i in leaves then old(paths[i]) + [level] else old(paths[i])
  {
    for j := 0 to |leaves|
      invariant forall i: nat :: i < paths.Length ==>
        paths[i] == if i in leaves[..j] then old(paths[i]) + [level] else old(paths[i])
    {
      assert leaves[..j + 1] == leaves[..j] + [leaves[j]];
      paths[leaves[j]] := paths[leaves[j]] + [level];
    }
    assert leaves[..|leaves|] == leaves;
  }

  lemma {:induction false} PushedStep(before: seq<seq<Level>>, middle: seq<seq<Level>>, after: seq<seq<Level>>,
                                      keys: Keys, children: seq<EpochChild>, descendants: seq<seq<nat>>, k: nat)
    requires ValidDescendants(descendants, |before|) && k < |descendants| && |after| == |before|
    requires PushedUpTo(before, middle, keys, children, descendants, k)
    requires forall i: nat :: i < |before| ==>
      after[i] == if i in descendants[k] then middle[i] + [Level(keys, k, children)] else middle[i]
    ensures PushedUpTo(before, after, keys, children, descendants, k + 1)
  {
    FlattenPrefix(descendants, k);
    forall i | i in descendants[k]
      ensures i !in Flatten(descendants[..k]) && forall m: nat :: m < k ==> i !in descendants[m]
    {
      var j :| 0 <= j < |descendants[k]| && descendants[k][j] == i;
      NextLeafIsFresh(descendants, |before|, k, j);
    }
  }

  /**
   * `append_level`: after all checks pass, pushes the public parent onto every descendant leaf below
   * its selected child and returns those leaves in order; on any error no entry changes.
   */
  method AppendLevel(paths: array<seq<Level>>, keys: Keys, children: seq<EpochChild>, descendants: seq<seq<nat>>)
      returns (r: Result<seq<nat>, ArchiveError>)
    modifies paths
    ensures r.Ok? <==>
      |children| == |descendants| && EvaluateNode(keys, children).Ok? && ValidDescendants(descendants, paths.Length)
    ensures r.Ok? ==> r.value == Flatten(descendants)
    ensures r.Ok? ==> PushedUpTo(old(paths[..]), paths[..], keys, children, descendants, |descendants|)
    ensures r.Err? ==> paths[..] == old(paths[..])
  {
    if |children| != |descendants| { return Err(DescendantCount); }
    var node := Evaluate(keys, children);
    if node.Err? { return Err(Rejected(node.error)); }
    var checked := CheckDescendants(descendants, paths.Length);
    if checked.Err? { return Err(checked.error); }
    ghost var before := paths[..];
    var all: seq<nat> := [];
    for k := 0 to |descendants|
      invariant PushedUpTo(before, paths[..], keys, children, descendants, k) && all == Flatten(descendants[..k])
    {
      ghost var middle := paths[..];
      FlattenPrefix(descendants, k);
      forall j: nat | j < |descendants[k]|
        ensures descendants[k][j] < paths.Length && descendants[k][j] !in descendants[k][..j]
      {
        NextLeafIsFresh(descendants, paths.Length, k, j);
      }
      PushChild(paths, descendants[k], Level(keys, k, children));
      PushedStep(before, middle, paths[..], keys, children, descendants, k);
      all := all + descendants[k];
    }
    assert descendants[..|descendants|] == descendants;
    return Ok(all);
  }

  // ----- the whole archive

  /** A node of the tree under construction and the original leaves below it. */
  datatype ArchiveNode = ArchiveNode(child: EpochChild, indexes: seq<nat>)

  function Children(nodes: seq<ArchiveNode>): seq<EpochChild>
  {
    seq(|nodes|, k requires 0 <= k < |nodes| => nodes[k].child)
  }

  function Indexes(nodes: seq<ArchiveNode>): seq<seq<nat>>
  {
    seq(|nodes|, k requires 0 <= k < |nodes| => nodes[k].indexes)
  }

  function Range(lo: nat, hi: nat): seq<nat>
    requires lo <= hi
  {
    seq(hi - lo, k requires 0 <= k < hi - lo => lo + k)
  }

  /** The nodes cover the leaves from `lo` up to `hi`, in order, each a nonempty stretch. */
  ghost predicate Tiles(nodes: seq<ArchiveNode>, lo: nat, hi: nat)
  {
    if nodes == [] then lo == hi
    else
      var last := nodes[|nodes| - 1].indexes;
      && last != [] && lo + |last| <= hi && last == Range(hi - |last|, hi)
      && Tiles(nodes[..|nodes| - 1], lo, hi - |last|)
  }

  lemma {:induction false} TilesFlatten(nodes: seq<ArchiveNode>, lo: nat, hi: nat)
    requires Tiles(nodes, lo, hi)
    ensures lo <= hi && Flatten(Indexes(nodes)) == Range(lo, hi)
    ensures ValidDescendants(Indexes(nodes), hi)
    ensures forall node, i :: node in nodes && i in node.indexes ==> lo <= i < hi
  {
    if nodes != [] {
      var last := nodes[|nodes| - 1].indexes;
      var rest := nodes[..|nodes| - 1];
      TilesFlatten(rest, lo, hi - |last|);
      assert Indexes(nodes)[..|nodes| - 1] == Indexes(rest);
      assert Range(lo, hi - |last|) + last == Range(lo, hi);
      forall k: nat | k < |nodes|
        ensures Indexes(nodes)[k] != [] && forall i :: i in nodes[k].indexes ==> lo <= i < hi
      {
        if k < |nodes| - 1 { assert rest[k] == nodes[k] && Indexes(rest)[k] != []; }
      }
    }
  }

  lemma {:induction false} TilesSplit(nodes: seq<ArchiveNode>, lo: nat, hi: nat, k: nat) returns (middle: nat)
    requires Tiles(nodes, lo, hi) && k <= |nodes|
    ensures Tiles(nodes[..k], lo, middle) && Tiles(nodes[k..], middle, hi)
  {
    if k == |nodes| {
      middle := hi;
      assert nodes[..k] == nodes;
    } else {
      var last := nodes[|nodes| - 1].indexes;
      middle := TilesSplit(nodes[..|nodes| - 1], lo, hi - |last|, k);
      assert nodes[..|nodes| - 1][..k] == nodes[..k];
      assert nodes[k..][..|nodes| - k - 1] == nodes[..|nodes| - 1][k..];
      assert nodes[k..][|nodes| - k - 1] == nodes[|nodes| - 1];
    }
  }

  /** Every leaf's path climbs to the node that covers it. */
  ghost predicate Anchored(keys: Keys, leaves: seq<Words>, paths: seq<seq<Level>>, nodes: seq<ArchiveNode>)
  {
    |paths| == |leaves| && forall node :: node in nodes ==> NodeAnchored(keys, leaves, paths, node)
  }

  ghost predicate NodeAnchored(keys: Keys, leaves: seq<Words>, paths: seq<seq<Level>>, node: ArchiveNode)
    requires |paths| == |leaves|
  {
    forall i :: i in node.indexes ==> i < |leaves| && Climb(keys, Leaf(leaves[i]), paths[i]) == Ok(node.child)
  }

  /** Every leaf below a child of the group got the group's level, with that child selected. */
  ghost predicate Pushed(keys: Keys, before: seq<seq<Level>>, after: seq<seq<Level>>, group: seq<ArchiveNode>)
    requires |before| == |after|
  {
    forall k: nat, i :: k < |group| && i in group[k].indexes && i < |before| ==>
      after[i] == before[i] + [Level(keys, k, Children(group))]
  }

  /** Appending a group's level makes every leaf below it climb to the group's aggregate. */
  lemma {:induction false} GroupAnchored(keys: Keys, leaves: seq<Words>, before: seq<seq<Level>>,
                                         after: seq<seq<Level>>, group: seq<ArchiveNode>, lo: nat, hi: nat)
    requires Anchored(keys, leaves, before, group) && Tiles(group, lo, hi) && hi <= |leaves|
    requires EvaluateNode(keys, Children(group)).Ok?
    requires PushedUpTo(before, after, keys, Children(group), Indexes(group), |group|)
    ensures Anchored(keys, leaves, after,
                     [ArchiveNode(Aggregate(AbiEncode(EvaluateNode(keys, Children(group)).value)), Range(lo, hi))])
    ensures Pushed(keys, before, after, group)
    ensures forall i: nat :: i < |before| && !(lo <= i < hi) ==> after[i] == before[i]
  {
    TilesFlatten(group, lo, hi);
    assert Indexes(group)[..|group|] == Indexes(group);
    forall i: nat | lo <= i < hi
      ensures Climb(keys, Leaf(leaves[i]), after[i])
        == Ok(Aggregate(AbiEncode(EvaluateNode(keys, Children(group)).value)))
    {
      LeafClimbs(keys, leaves, before, after, group, lo, hi, i);
    }
  }

  lemma {:induction false} LeafClimbs(keys: Keys, leaves: seq<Words>, before: seq<seq<Level>>, after: seq<seq<Level>>,
                                      group: seq<ArchiveNode>, lo: nat, hi: nat, i: nat)
    requires Anchored(keys, leaves, before, group) && lo <= i < hi <= |leaves|
        && Flatten(Indexes(group)) == Range(lo, hi)
    requires EvaluateNode(keys, Children(group)).Ok?
    requires PushedUpTo(before, after, keys, Children(group), Indexes(group), |group|)
    ensures Climb(keys, Leaf(leaves[i]), after[i])
        == Ok(Aggregate(AbiEncode(EvaluateNode(keys, Children(group)).value)))
  {
    assert i in Range(lo, hi) by { assert Range(lo, hi)[i - lo] == i; }
    var k := OwnerOf(Indexes(group), i);
    assert Indexes(group)[k] == group[k].indexes && group[k] in group;
    assert NodeAnchored(keys, leaves, before, group[k]);
    ClimbOneMore(keys, Leaf(leaves[i]), before[i], Level(keys, k, Children(group)));
  }

  lemma {:induction false} OwnerOf(descendants: seq<seq<nat>>, i: nat) returns (k: nat)
    requires i in Flatten(descendants)
    ensures k < |descendants| && i in descendants[k]
  {
    k := |descendants| - 1;
    if i !in descendants[k] { k := OwnerOf(descendants[..k], i); }
  }

  lemma {:induction false} ClimbOneMore(keys: Keys, leaf: EpochChild, levels: seq<Level>, level: Level)
    ensures Climb(keys, leaf, levels).Ok? ==>
        Climb(keys, leaf, levels + [level]) == Step(keys, Climb(keys, leaf, levels).value, level)
  {
    assert (levels + [level])[..|levels|] == levels;
  }

  // ----- where the recorded positions come from

  /** The node of level `height` above leaf `i`: its number divided by eight that many times. */
  function NodeAbove(i: nat, height: nat): nat
    decreases height
  {
    if height == 0 then i else NodeAbove(i / MAX_FAN_IN, height - 1)
  }

  lemma {:induction false} NextNodeAbove(i: nat, height: nat)
    ensures NodeAbove(i, height + 1) == NodeAbove(i, height) / MAX_FAN_IN
    decreases height
  {
    if height != 0 { NextNodeAbove(i / MAX_FAN_IN, height - 1); }
  }

  function Octal(i: nat, k: nat): nat
  {
    NodeAbove(i, k) % MAX_FAN_IN
  }

  /** A path of `height` levels whose positions, bottom up, are the base-8 digits of the leaf's number. */
  ghost predicate Placed(path: seq<Level>, i: nat, height: nat)
  {
    |path| == height && forall k: nat :: k < height ==> path[k].childIndex == Octal(i, k)
  }

  ghost predicate AllPlaced(paths: seq<seq<Level>>, lo: nat, hi: nat, height: nat)
    requires hi <= |paths|
  {
    forall i: nat :: lo <= i < hi ==> Placed(paths[i], i, height)
  }

  /** Node `k` covers only leaves below node `base + k` of level `height`. */
  ghost predicate Aligned(nodes: seq<ArchiveNode>, base: nat, height: nat)
  {
    forall k: nat, i :: k < |nodes| && i in nodes[k].indexes ==> NodeAbove(i, height) == base + k
  }

  lemma {:induction false} LeafPlaces(keys: Keys, before: seq<Level>, after: seq<Level>, children: seq<EpochChild>,
                                      i: nat, k: nat, base: nat, height: nat)
    requires Placed(before, i, height) && after == before + [Level(keys, k, children)]
    requires k < MAX_FAN_IN && NodeAbove(i, height) == MAX_FAN_IN * base + k
    ensures Placed(after, i, height + 1) && NodeAbove(i, height + 1) == base
  {
    NextNodeAbove(i, height);
  }

  /** Appending the group's level places its leaves one level higher. */
  lemma {:induction false} GroupPlaces(keys: Keys, before: seq<seq<Level>>, after: seq<seq<Level>>,
                                       group: seq<ArchiveNode>, lo: nat, hi: nat, base: nat, height: nat)
    requires hi <= |before| == |after| && Tiles(group, lo, hi) && |group| <= MAX_FAN_IN
    requires Aligned(group, MAX_FAN_IN * base, height) && AllPlaced(before, lo, hi, height)
    requires Pushed(keys, before, after, group)
    ensures lo <= hi && AllPlaced(after, lo, hi, height + 1)
    ensures forall i :: i in Range(lo, hi) ==> NodeAbove(i, height + 1) == base
  {
    TilesFlatten(group, lo, hi);
    forall i | i in Range(lo, hi)
      ensures lo <= i < hi && Placed(after[i], i, height + 1) && NodeAbove(i, height + 1) == base
    {
      var k := OwnerOf(Indexes(group), i);
      assert i in group[k].indexes;
      LeafPlaces(keys, before[i], after[i], Children(group), i, k, base, height);
    }
    forall i: nat | lo <= i < hi
      ensures Placed(after[i], i, height + 1)
    {
      assert Range(lo, hi)[i - lo] == i && i in Range(lo, hi);
    }
  }

  /** Base-8 digits determine a number. */
  lemma {:induction false} DigitsDetermine(i: nat, j: nat, height: nat)
    requires NodeAbove(i, height) == NodeAbove(j, height)
    requires forall k: nat :: k < height ==> Octal(i, k) == Octal(j, k)
    ensures i == j
    decreases height
  {
    if height != 0 {
      assert Octal(i, 0) == i % 8 && Octal(j, 0) == j % 8;
      assert forall k: nat :: Octal(i / 8, k) == Octal(i, k + 1) && Octal(j / 8, k) == Octal(j, k + 1);
      DigitsDetermine(i / 8, j / 8, height - 1);
    }
  }

  lemma {:induction false} PointwisePositions(a: seq<Level>, b: seq<Level>)
    requires |a| == |b| && SamePositions(a, b)
    ensures forall k: nat :: k < |a| ==> a[k].childIndex == b[k].childIndex
  {
    if a != [] { PointwisePositions(a[..|a| - 1], b[..|b| - 1]); }
  }

  /** Different leaves of one archive are recorded at different positions. */
  lemma {:induction false} PlacedApart(a: seq<Level>, i: nat, b: seq<Level>, j: nat, height: nat)
    requires Placed(a, i, height) && Placed(b, j, height) && SamePositions(a, b)
    requires NodeAbove(i, height) == NodeAbove(j, height)
    ensures i == j
  {
    PointwisePositions(a, b);
    DigitsDetermine(i, j, height);
  }

  /** Writing only the paths of `lo..hi` leaves nodes covering other leaves anchored. */
  lemma {:induction false} AnchoredElsewhere(keys: Keys, leaves: seq<Words>, before: seq<seq<Level>>,
                                             after: seq<seq<Level>>, nodes: seq<ArchiveNode>, start: nat, end: nat,
                                             lo: nat, hi: nat)
    requires Anchored(keys, leaves, before, nodes) && Tiles(nodes, start, end) && |after| == |before|
    requires end <= lo || hi <= start
    requires forall i: nat :: i < |before| && !(lo <= i < hi) ==> after[i] == before[i]
    ensures Anchored(keys, leaves, after, nodes)
  {
    TilesFlatten(nodes, start, end);
    forall node | node in nodes
      ensures NodeAnchored(keys, leaves, after, node)
    {
      assert NodeAnchored(keys, leaves, before, node);
      assert forall i :: i in node.indexes ==> start <= i < end;
    }
  }

  lemma {:induction false} TilesSnoc(nodes: seq<ArchiveNode>, lo: nat, middle: nat, hi: nat, child: EpochChild)
    requires Tiles(nodes, lo, middle) && middle < hi
    ensures Tiles(nodes + [ArchiveNode(child, Range(middle, hi))], lo, hi)
  {
    TilesFlatten(nodes, lo, middle);
    assert (nodes + [ArchiveNode(child, Range(middle, hi))])[..|nodes|] == nodes;
  }

  lemma {:induction false} TilesProgress(nodes: seq<ArchiveNode>, lo: nat, hi: nat)
    requires Tiles(nodes, lo, hi) && nodes != []
    ensures lo < hi
  {
    TilesFlatten(nodes[..|nodes| - 1], lo, hi - |nodes[|nodes| - 1].indexes|);
  }

  lemma {:induction false} SliceChildren(nodes: seq<ArchiveNode>, k: nat)
    requires k <= |nodes|
    ensures |Children(nodes)| == |nodes|
    ensures Children(nodes[..k]) == Children(nodes)[..k] && Children(nodes[k..]) == Children(nodes)[k..]
  {
  }

  lemma {:induction false} ChildrenSnoc(nodes: seq<ArchiveNode>, node: ArchiveNode)
    ensures Children([]) == [] && Children(nodes + [node]) == Children(nodes) + [node.child]
  {
  }

  /** One group: archive its public parent, then take the parent's proof as the next node. */
  method ArchiveGroup(paths: array<seq<Level>>, keys: Keys, ghost leaves: seq<Words>, group: seq<ArchiveNode>,
                      ghost lo: nat, ghost hi: nat)
      returns (r: Result<ArchiveNode, ArchiveError>)
    requires paths.Length == |leaves| && group != [] && Tiles(group, lo, hi) && hi <= |leaves|
    requires Anchored(keys, leaves, paths[..], group)
    modifies paths
    ensures r.Ok? <==> EvaluateNode(keys, Children(group)).Ok?
    ensures r.Err? ==> paths[..] == old(paths[..])
    ensures r.Ok? ==>
        r.value == ArchiveNode(Aggregate(AbiEncode(EvaluateNode(keys, Children(group)).value)), Range(lo, hi))
    ensures r.Ok? ==> Anchored(keys, leaves, paths[..], [r.value])
    ensures forall i: nat :: i < |leaves| && !(lo <= i < hi) ==> paths[i] == old(paths[i])
    ensures r.Ok? ==> Pushed(keys, old(paths[..]), paths[..], group)
  {
    ghost var before := paths[..];
    TilesFlatten(group, lo, hi);
    var indexes := AppendLevel(paths, keys, Children(group), Indexes(group));
    assert ValidDescendants(Indexes(group), paths.Length);
    if indexes.Err? {
      assert forall i: nat :: i < |leaves| ==> paths[i] == paths[..][i] == before[i];
      return Err(indexes.error);
    }
    var node := Evaluate(keys, Children(group));
    GroupAnchored(keys, leaves, before, paths[..], group, lo, hi);
    assert forall i: nat :: i < |leaves| ==> paths[i] == paths[..][i];
    return Ok(ArchiveNode(Aggregate(AbiEncode(node.value)), indexes.value));
  }

  /** The state between levels: `height` levels recorded for every leaf, each climbing to the node over it. */
  ghost predicate LevelInvariant(keys: Keys, leaves: seq<Words>, paths: seq<seq<Level>>, nodes: seq<ArchiveNode>,
                                 height: nat)
  {
    && Tiles(nodes, 0, |leaves|) && Anchored(keys, leaves, paths, nodes)
    && Aligned(nodes, 0, height) && AllPlaced(paths, 0, |paths|, height)
  }

  /** Within a pass: leaves below `middle` already carry the new level. */
  ghost predicate InPass(keys: Keys, leaves: seq<Words>, paths: seq<seq<Level>>, next: seq<ArchiveNode>,
                         remaining: seq<ArchiveNode>, middle: nat, height: nat)
  {
    && |paths| == |leaves| && middle <= |leaves|
    && Tiles(next, 0, middle) && Tiles(remaining, middle, |leaves|)
    && Anchored(keys, leaves, paths, next) && Anchored(keys, leaves, paths, remaining)
    && Aligned(next, 0, height + 1) && Aligned(remaining, MAX_FAN_IN * |next|, height)
    && AllPlaced(paths, 0, middle, height + 1) && AllPlaced(paths, middle, |leaves|, height)
  }

  lemma {:induction false} AlignedSplit(nodes: seq<ArchiveNode>, base: nat, height: nat, k: nat)
    requires Aligned(nodes, base, height) && k <= |nodes|
    ensures Aligned(nodes[..k], base, height) && Aligned(nodes[k..], base + k, height)
  {
  }

  lemma {:induction false} AlignedSnoc(nodes: seq<ArchiveNode>, node: ArchiveNode, height: nat)
    requires Aligned(nodes, 0, height) && forall i :: i in node.indexes ==> NodeAbove(i, height) == |nodes|
    ensures Aligned(nodes + [node], 0, height)
  {
  }

  /** The next group is lifted: what the pass has done grows by its leaves. */
  lemma {:induction false} PassAdvances(keys: Keys, leaves: seq<Words>, before: seq<seq<Level>>, after: seq<seq<Level>>,
                                        next: seq<ArchiveNode>, group: seq<ArchiveNode>, rest: seq<ArchiveNode>,
                                        node: ArchiveNode, middle: nat, hi: nat, height: nat)
    requires |before| == |after| == |leaves| && middle < hi <= |leaves| && |group| <= MAX_FAN_IN
    requires InPass(keys, leaves, before, next, group + rest, middle, height)
    requires Tiles(group, middle, hi) && Tiles(rest, hi, |leaves|) && node.indexes == Range(middle, hi)
    requires Anchored(keys, leaves, after, [node]) && (rest != [] ==> |group| == MAX_FAN_IN)
    requires forall i: nat :: i < |leaves| && !(middle <= i < hi) ==> after[i] == before[i]
    requires Pushed(keys, before, after, group)
    ensures InPass(keys, leaves, after, next + [node], rest, hi, height)
  {
    assert forall x :: x in rest ==> x in group + rest;
    AnchoredElsewhere(keys, leaves, before, after, next, 0, middle, middle, hi);
    AnchoredElsewhere(keys, leaves, before, after, rest, hi, |leaves|, middle, hi);
    TilesSnoc(next, 0, middle, hi, node.child);
    assert forall x :: x in next + [node] ==> x in next || x in [node];
    PassPlaces(keys, before, after, next, group, rest, node, middle, hi, height);
  }

  lemma {:induction false} PassPlaces(keys: Keys, before: seq<seq<Level>>, after: seq<seq<Level>>,
                                      next: seq<ArchiveNode>, group: seq<ArchiveNode>, rest: seq<ArchiveNode>,
                                      node: ArchiveNode, middle: nat, hi: nat, height: nat)
    requires middle < hi <= |before| == |after| && |group| <= MAX_FAN_IN && (rest != [] ==> |group| == MAX_FAN_IN)
    requires Tiles(group, middle, hi) && node.indexes == Range(middle, hi) && Pushed(keys, before, after, group)
    requires Aligned(next, 0, height + 1) && Aligned(group + rest, MAX_FAN_IN * |next|, height)
    requires AllPlaced(before, 0, middle, height + 1) && AllPlaced(before, middle, |before|, height)
    requires forall i: nat :: i < |before| && !(middle <= i < hi) ==> after[i] == before[i]
    ensures AllPlaced(after, 0, hi, height + 1) && AllPlaced(after, hi, |after|, height)
    ensures Aligned(next + [node], 0, height + 1)
    ensures Aligned(rest, MAX_FAN_IN * |next + [node]|, height)
  {
    AlignedSplit(group + rest, MAX_FAN_IN * |next|, height, |group|);
    assert (group + rest)[..|group|] == group && (group + rest)[|group|..] == rest;
    GroupPlaces(keys, before, after, group, middle, hi, |next|, height);
    AlignedSnoc(next, node, height + 1);
  }

  lemma {:induction false} PassStarts(keys: Keys, leaves: seq<Words>, paths: seq<seq<Level>>, nodes: seq<ArchiveNode>,
                                      height: nat)
    requires |paths| == |leaves| && LevelInvariant(keys, leaves, paths, nodes, height)
    ensures InPass(keys, leaves, paths, [], nodes, 0, height)
  {
  }

  lemma {:induction false} PassEnds(keys: Keys, leaves: seq<Words>, paths: seq<seq<Level>>, next: seq<ArchiveNode>,
                                    middle: nat, height: nat)
    requires InPass(keys, leaves, paths, next, [], middle, height)
    ensures LevelInvariant(keys, leaves, paths, next, height + 1)
  {
  }

  /** The next group of a pass covers a nonempty stretch of leaves and is anchored. */
  lemma {:induction false} NextGroup(keys: Keys, leaves: seq<Words>, paths: seq<seq<Level>>, next: seq<ArchiveNode>,
                                     remaining: seq<ArchiveNode>, middle: nat, height: nat, k: nat)
      returns (hi: nat)
    requires InPass(keys, leaves, paths, next, remaining, middle, height) && 0 < k <= |remaining|
    ensures middle < hi <= |leaves| && Tiles(remaining[..k], middle, hi) && Tiles(remaining[k..], hi, |leaves|)
    ensures Anchored(keys, leaves, paths, remaining[..k])
  {
    hi := TilesSplit(remaining, middle, |leaves|, k);
    TilesFlatten(remaining[k..], hi, |leaves|);
    TilesProgress(remaining[..k], middle, hi);
  }

  lemma {:induction false} EmptyLevel(keys: Keys)
    ensures NextLevel(keys, []) == Ok([])
  {
  }

  /** One more group of a level: it fails with the group or goes on with the group's aggregate. */
  lemma {:induction false} LevelStep(keys: Keys, done: seq<EpochChild>, nodes: seq<EpochChild>,
                                     target: Result<seq<EpochChild>, EpochError>)
    requires nodes != [] && target == Prepend(done, NextLevel(keys, nodes))
    ensures var node := EvaluateNode(keys, nodes[..GroupSize(nodes)]);
      && (node.Err? ==> target.Err?)
      && (node.Ok? ==>
            target == Prepend(done + [Aggregate(AbiEncode(node.value))], NextLevel(keys, nodes[GroupSize(nodes)..])))
  {
    hide EvaluateNode;
    var k := GroupSize(nodes);
    var node := EvaluateNode(keys, nodes[..k]);
    if node.Ok? { PrependTwice(done, Aggregate(AbiEncode(node.value)), NextLevel(keys, nodes[k..])); }
  }

  /** The body of a pass: the next group is archived and replaced by its aggregate. */
  method ArchiveNext(paths: array<seq<Level>>, keys: Keys, ghost leaves: seq<Words>, ghost next: seq<ArchiveNode>,
                     remaining: seq<ArchiveNode>, ghost middle: nat, ghost height: nat, k: nat)
      returns (r: Result<ArchiveNode, ArchiveError>, ghost hi: nat)
    requires paths.Length == |leaves| && InPass(keys, leaves, paths[..], next, remaining, middle, height)
    requires 0 < k <= |remaining| && k <= MAX_FAN_IN && (k < |remaining| ==> k == MAX_FAN_IN)
    modifies paths
    ensures r.Ok? <==> EvaluateNode(keys, Children(remaining[..k])).Ok?
    ensures r.Ok? ==> r.value.child == Aggregate(AbiEncode(EvaluateNode(keys, Children(remaining[..k])).value))
    ensures r.Ok? ==> InPass(keys, leaves, paths[..], next + [r.value], remaining[k..], hi, height)
  {
    hide EvaluateNode;
    hide InPass;
    hide Tiles;
    ghost var before := paths[..];
    hi := NextGroup(keys, leaves, before, next, remaining, middle, height, k);
    assert remaining == remaining[..k] + remaining[k..];
    r := ArchiveGroup(paths, keys, leaves, remaining[..k], middle, hi);
    if r.Ok? {
      PassAdvances(keys, leaves, before, paths[..], next, remaining[..k], remaining[k..], r.value, middle, hi, height);
    }
  }

  /** One pass over the nodes, eight at a time. */
  method ArchiveLevel(paths: array<seq<Level>>, keys: Keys, ghost leaves: seq<Words>, nodes: seq<ArchiveNode>,
                      ghost height: nat)
      returns (r: Result<seq<ArchiveNode>, ArchiveError>)
    requires paths.Length == |leaves| && LevelInvariant(keys, leaves, paths[..], nodes, height)
    modifies paths
    ensures r.Ok? <==> NextLevel(keys, Children(nodes)).Ok?
    ensures r.Ok? ==> Children(r.value) == NextLevel(keys, Children(nodes)).value
    ensures r.Ok? ==> LevelInvariant(keys, leaves, paths[..], r.value, height + 1)
  {
    var next: seq<ArchiveNode> := [];
    var remaining := nodes;
    ghost var middle: nat := 0;
    hide EvaluateNode;
    hide NextLevel;
    hide InPass;
    hide LevelInvariant;
    hide Tiles;
    EmptyLevel(keys);
    PassStarts(keys, leaves, paths[..], nodes, height);
    ghost var target := NextLevel(keys, Children(nodes));
    PrependNothing([], target);
    assert Children([]) == [];
    hide Children;
    while remaining != []
      invariant InPass(keys, leaves, paths[..], next, remaining, middle, height)
      invariant target == Prepend(Children(next), NextLevel(keys, Children(remaining)))
      decreases |remaining|
    {
      var k := if |remaining| < MAX_FAN_IN then |remaining| else MAX_FAN_IN;
      LevelStep(keys, Children(next), Children(remaining), target);
      SliceChildren(remaining, k);
      var node, hi := ArchiveNext(paths, keys, leaves, next, remaining, middle, height, k);
      if node.Err? {
        return Err(node.error);
      }
      ChildrenSnoc(next, node.value);
      next, remaining, middle := next + [node.value], remaining[k..], hi;
    }
    PassEnds(keys, leaves, paths[..], next, middle, height);
    PrependNothing(Children(next), target);
    return Ok(next);
  }

  // ----- all levels

  function LeafNodes(leaves: seq<Words>): seq<EpochChild>
  {
    seq(|leaves|, i requires 0 <= i < |leaves| => Leaf(leaves[i]))
  }

  function Singletons(leaves: seq<Words>): seq<ArchiveNode>
  {
    seq(|leaves|, i requires 0 <= i < |leaves| => ArchiveNode(Leaf(leaves[i]), [i]))
  }

  lemma {:induction false} SingletonsTile(leaves: seq<Words>, n: nat)
    requires n <= |leaves|
    ensures Tiles(Singletons(leaves)[..n], 0, n)
  {
    if n != 0 {
      SingletonsTile(leaves, n - 1);
      assert Singletons(leaves)[..n][..n - 1] == Singletons(leaves)[..n - 1];
      assert [n - 1] == Range(n - 1, n);
    }
  }

  lemma {:induction false} StartInvariant(keys: Keys, leaves: seq<Words>, paths: seq<seq<Level>>)
    requires |paths| == |leaves| && forall p :: p in paths ==> p == []
    ensures LevelInvariant(keys, leaves, paths, Singletons(leaves), 0)
    ensures Children(Singletons(leaves)) == LeafNodes(leaves)
  {
    SingletonsTile(leaves, |leaves|);
    assert Singletons(leaves)[..|leaves|] == Singletons(leaves);
    forall i: nat | i < |paths|
      ensures paths[i] == [] && Climb(keys, Leaf(leaves[i]), paths[i]) == Ok(Leaf(leaves[i]))
    {
      assert paths[i] in paths;
    }
    forall node | node in Singletons(leaves)
      ensures NodeAnchored(keys, leaves, paths, node)
    {
      var i: nat :| i < |leaves| && Singletons(leaves)[i] == node;
      assert forall j :: j in node.indexes ==> j == i;
    }
  }

  /** More than eight nodes after `height` levels means more than `8^(height+1)` leaves. */
  ghost predicate Wide(nodes: nat, leaves: nat, height: nat)
  {
    nodes > 0 && (nodes - 1) * Pow2(3 * height) < leaves && (height > 0 ==> Pow2(3 * height) < leaves)
  }

  lemma {:induction false} EightTimes(height: nat)
    ensures Pow2(3 * (height + 1)) == 8 * Pow2(3 * height)
  {
    Pow2Add(3, 3 * height);
    assert Pow2(3) == 8;
  }

  lemma {:induction false} WideStep(nodes: nat, leaves: nat, height: nat)
    requires nodes > MAX_FAN_IN && Wide(nodes, leaves, height)
    ensures Wide((nodes + 7) / 8, leaves, height + 1)
  {
    EightTimes(height);
    var q, above := Pow2(3 * height), (nodes + 7) / 8 - 1;
    MulMonotone(8, nodes - 1, q);
    MulMonotone(above * 8, nodes - 1, q);
    assert above * 8 * q == above * Pow2(3 * (height + 1));
  }

  lemma {:induction false} LevelNarrows(keys: Keys, nodes: seq<ArchiveNode>, next: seq<ArchiveNode>, leaves: nat,
                                        height: nat)
    requires |nodes| > MAX_FAN_IN && Wide(|nodes|, leaves, height)
    requires NextLevel(keys, Children(nodes)) == Ok(Children(next))
    ensures |next| < |nodes| && Wide(|next|, leaves, height + 1)
    ensures Reduce(keys, Children(next)) == Reduce(keys, Children(nodes))
  {
    assert |Children(next)| == |next| && |Children(nodes)| == |nodes|;
    WideStep(|nodes|, leaves, height);
  }

  lemma {:induction false} WideBoundsHeight(nodes: nat, leaves: nat, height: nat)
    requires Wide(nodes, leaves, height) && leaves < U64_LIMIT
    ensures height < MAX_LEVELS
  {
    WordSizes();
    if height >= 22 { Pow2Monotone(64, 3 * height); }
  }

  ghost predicate Authenticates(keys: Keys, leaf: Words, levels: seq<Level>, root: Words)
  {
    forall transaction: Digest :: Verify(keys, leaf, AuthenticationPath(2, Some(transaction), levels)) == Ok(root)
  }

  lemma {:induction false} AnchoredAuthenticates(keys: Keys, leaves: seq<Words>, paths: seq<seq<Level>>,
                                                 root: ArchiveNode, height: nat, i: nat)
    requires i < |leaves| == |paths| && 0 < height <= MAX_LEVELS && root.indexes == Range(0, |leaves|)
    requires Anchored(keys, leaves, paths, [root]) && AllPlaced(paths, 0, |paths|, height)
    requires ChildOk(keys, Leaf(leaves[i]))
    ensures Authenticates(keys, leaves[i], paths[i], root.child.words)
  {
    assert root in [root] && root.indexes[i] == i;
    assert NodeAnchored(keys, leaves, paths, root);
    LoneLeafEvaluates(keys, leaves[i]);
  }

  lemma {:induction false} LoneLeafEvaluates(keys: Keys, leaf: Words)
    requires ChildOk(keys, Leaf(leaf))
    ensures EvaluateNode(keys, [Leaf(leaf)]).Ok?
  {
    var alone := [Leaf(leaf)];
    assert alone[..0] == [];
    assert TotalLots(alone) == 1 && TotalEvents(alone) == EventsOf(Leaf(leaf));
    NodeAcceptsExactly(keys, alone);
  }

  /** Level `k` of leaf `i`'s path selects child `i / 8^k % 8`, and no two leaves share all their positions. */
  ghost predicate TellLeavesApart(paths: seq<seq<Level>>)
  {
    && (forall i: nat, k: nat :: i < |paths| && k < |paths[i]| ==> paths[i][k].childIndex == Octal(i, k))
    && forall i: nat, j: nat :: i < j < |paths| ==> !SamePositions(paths[i], paths[j])
  }

  lemma {:induction false} PlacedTellApart(paths: seq<seq<Level>>, height: nat)
    requires AllPlaced(paths, 0, |paths|, height) && forall i :: i in Range(0, |paths|) ==> NodeAbove(i, height) == 0
    ensures TellLeavesApart(paths)
  {
    forall i: nat, j: nat | i < j < |paths|
      ensures !SamePositions(paths[i], paths[j])
    {
      assert Range(0, |paths|)[i] == i && Range(0, |paths|)[j] == j;
      if SamePositions(paths[i], paths[j]) { PlacedApart(paths[i], i, paths[j], j, height); }
    }
  }

  /** The root's group of at most eight nodes completes every leaf's positions. */
  lemma {:induction false} RootPlaces(keys: Keys, before: seq<seq<Level>>, after: seq<seq<Level>>,
                                      nodes: seq<ArchiveNode>, height: nat)
    requires |before| == |after| && Tiles(nodes, 0, |before|) && |nodes| <= MAX_FAN_IN
    requires Aligned(nodes, 0, height) && AllPlaced(before, 0, |before|, height) && Pushed(keys, before, after, nodes)
    ensures AllPlaced(after, 0, |after|, height + 1) && TellLeavesApart(after)
  {
    GroupPlaces(keys, before, after, nodes, 0, |before|, 0, height);
    PlacedTellApart(after, height + 1);
  }

  /**
   * `prove_epoch_tree_with_archive`: succeeds exactly when the reduction does, returns its root values,
   * and every original leaf's recorded path authenticates that leaf to the root.
   */
  method ArchiveTree(keys: Keys, leaves: seq<Words>)
      returns (r: Result<(EpochPublicValues, seq<seq<Level>>), ArchiveError>)
    ensures leaves == [] ==> r == Err(NoChildren)
    ensures r.Ok? <==> Reduce(keys, LeafNodes(leaves)).Ok?
    ensures r.Ok? ==> r.value.0 == Reduce(keys, LeafNodes(leaves)).value && |r.value.1| == |leaves|
    ensures r.Ok? ==> forall i: nat :: i < |leaves| ==>
        Authenticates(keys, leaves[i], r.value.1[i], AbiEncode(r.value.0))
    ensures r.Ok? ==> TellLeavesApart(r.value.1)
  {
    if leaves == [] { return Err(NoChildren); }
    var paths := new seq<Level>[|leaves|](_ => []);
    var nodes := Singletons(leaves);
    ghost var height: nat := 0;
    StartInvariant(keys, leaves, paths[..]);
    assert Pow2(0) == 1;
    while |nodes| > MAX_FAN_IN
      invariant LevelInvariant(keys, leaves, paths[..], nodes, height)
      invariant Wide(|nodes|, |leaves|, height)
      invariant Reduce(keys, LeafNodes(leaves)) == Reduce(keys, Children(nodes))
      decreases |nodes|
    {
      var next := ArchiveLevel(paths, keys, leaves, nodes, height);
      if next.Err? { return Err(next.error); }
      LevelNarrows(keys, nodes, next.value, |leaves|, height);
      nodes := next.value;
      height := height + 1;
    }
    ghost var before := paths[..];
    var root := ArchiveGroup(paths, keys, leaves, nodes, 0, |leaves|);
    if root.Err? { return Err(root.error); }
    RootPlaces(keys, before, paths[..], nodes, height);
    var values := Evaluate(keys, Children(nodes));
    RootAuthenticates(keys, leaves, paths[..], root.value, height, |nodes|);
    return Ok((values.value, paths[..]));
  }

  lemma {:induction false} RootAuthenticates(keys: Keys, leaves: seq<Words>, paths: seq<seq<Level>>,
                                             root: ArchiveNode, height: nat, nodes: nat)
    requires |paths| == |leaves| && Reduce(keys, LeafNodes(leaves)).Ok? && Wide(nodes, |leaves|, height)
    requires root == ArchiveNode(Aggregate(AbiEncode(Reduce(keys, LeafNodes(leaves)).value)), Range(0, |leaves|))
    requires Anchored(keys, leaves, paths, [root]) && AllPlaced(paths, 0, |leaves|, height + 1)
    ensures forall i: nat :: i < |leaves| ==>
      Authenticates(keys, leaves[i], paths[i], AbiEncode(Reduce(keys, LeafNodes(leaves)).value))
  {
    ReductionMeansList(keys, LeafNodes(leaves));
    ReductionCountsLeaves(keys, LeafNodes(leaves));
    WideBoundsHeight(nodes, |leaves|, height);
    forall i: nat | i < |leaves|
      ensures Authenticates(keys, leaves[i], paths[i], root.child.words)
    {
      assert LeafNodes(leaves)[i] in LeafNodes(leaves);
      AnchoredAuthenticates(keys, leaves, paths, root, height + 1, i);
    }
  }
}
