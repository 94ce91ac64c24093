/** Complete binary Merkle trees over symbolic digests: openings are complete and binding. */
module Merkle {
  import opened Primitives
  import opened Digests

  /** The node at height `d` and position `p` of the tree whose leaf `i` is `leaf(i)`. */
  function TreeNode(domain: Domain, leaf: nat -> Digest, d: nat, p: nat): Digest
  {
    if d == 0 then leaf(p)
    else Node(domain, TreeNode(domain, leaf, d - 1, 2 * p), TreeNode(domain, leaf, d - 1, 2 * p + 1))
  }

  /** The position `d` levels above leaf position `i`. */
  function Shift(i: nat, d: nat): nat
    decreases d
  {
    if d == 0 then i else Shift(i / 2, d - 1)
  }

  function Sibling(i: nat): nat
  {
    if i % 2 == 0 then i + 1 else i - 1
  }

  function Parent(domain: Domain, i: nat, node: Digest, sibling: Digest): Digest
  {
    if i % 2 == 0 then Node(domain, node, sibling) else Node(domain, sibling, node)
  }

  /** The root a path claims: fold the siblings, least significant index bit first. */
  function PathRoot(domain: Domain, i: nat, node: Digest, path: seq<Digest>): Digest
    decreases |path|
  {
    if path == [] then node else PathRoot(domain, i / 2, Parent(domain, i, node, path[0]), path[1..])
  }

  /** The `n` siblings met when climbing from height `d`, position `i`. */
  function SiblingPath(domain: Domain, leaf: nat -> Digest, d: nat, i: nat, n: nat): (path: seq<Digest>)
    ensures |path| == n
    decreases n
  {
    if n == 0 then []
    else [TreeNode(domain, leaf, d, Sibling(i))] + SiblingPath(domain, leaf, d + 1, i / 2, n - 1)
  }

  /** A path recomputes the tree node above it exactly when node and siblings are the tree's own. */
  lemma {:induction false} OpeningIsExact(domain: Domain, leaf: nat -> Digest, d: nat, i: nat, node: Digest,
                                          path: seq<Digest>)
    ensures PathRoot(domain, i, node, path) == TreeNode(domain, leaf, d + |path|, Shift(i, |path|))
       <==> node == TreeNode(domain, leaf, d, i) && path == SiblingPath(domain, leaf, d, i, |path|)
    decreases |path|
  {
    if path != [] {
      OpeningIsExact(domain, leaf, d + 1, i / 2, Parent(domain, i, node, path[0]), path[1..]);
      ParentIsExact(domain, leaf, d, i, node, path[0]);
      SiblingPathIsExact(domain, leaf, d, i, path);
    }
  }

  lemma {:induction false} ParentIsInjective(domain: Domain, i: nat, a: Digest, x: Digest, b: Digest, y: Digest)
    requires Parent(domain, i, a, x) == Parent(domain, i, b, y)
    ensures a == b && x == y
  {
    hide Parent;
    ParentParts(domain, i, a, x);
    ParentParts(domain, i, b, y);
  }

  lemma {:induction false} ParentParts(domain: Domain, i: nat, node: Digest, sibling: Digest)
    ensures var parent := Parent(domain, i, node, sibling);
      && parent.Node?
      && (if i % 2 == 0 then parent.left == node && parent.right == sibling
          else parent.left == sibling && parent.right == node)
  {
  }

  lemma {:induction false} ParentIsExact(domain: Domain, leaf: nat -> Digest, d: nat, i: nat, node: Digest,
                                         sibling: Digest)
    ensures Parent(domain, i, node, sibling) == TreeNode(domain, leaf, d + 1, i / 2)
       <==> node == TreeNode(domain, leaf, d, i) && sibling == TreeNode(domain, leaf, d, Sibling(i))
  {
  }

  lemma {:induction false} SiblingPathIsExact(domain: Domain, leaf: nat -> Digest, d: nat, i: nat, path: seq<Digest>)
    requires path != []
    ensures path == SiblingPath(domain, leaf, d, i, |path|) <==>
      && path[0] == TreeNode(domain, leaf, d, Sibling(i))
      && path[1..] == SiblingPath(domain, leaf, d + 1, i / 2, |path| - 1)
  {
    assert path == [path[0]] + path[1..];
  }

  lemma {:induction false} ShiftStep(i: nat, d: nat)
    ensures Shift(i, d + 1) == Shift(i, d) / 2
    decreases d
  {
    if d != 0 { ShiftStep(i / 2, d - 1); }
  }

  lemma {:induction false} ShiftBound(i: nat, d: nat, n: nat)
    requires i < Pow2(d + n)
    ensures Shift(i, d) < Pow2(n)
    decreases d
  {
    if d != 0 { ShiftBound(i / 2, d - 1, n); }
  }

  /** Replacing one leaf leaves every node that is not above it unchanged. */
  lemma {:induction false} TreeNodeFrame(domain: Domain, f: nat -> Digest, g: nat -> Digest, i: nat, d: nat, p: nat)
    requires forall j: nat :: j != i ==> f(j) == g(j)
    requires Shift(i, d) != p
    ensures TreeNode(domain, f, d, p) == TreeNode(domain, g, d, p)
    decreases d
  {
    if d != 0 {
      ShiftStep(i, d - 1);
      TreeNodeFrame(domain, f, g, i, d - 1, 2 * p);
      TreeNodeFrame(domain, f, g, i, d - 1, 2 * p + 1);
    }
  }

  /** Replacing leaf `i` keeps the sibling path of `i`. */
  lemma {:induction false} SiblingPathFrame(domain: Domain, f: nat -> Digest, g: nat -> Digest, i: nat, d: nat, n: nat)
    requires forall j: nat :: j != i ==> f(j) == g(j)
    ensures SiblingPath(domain, f, d, Shift(i, d), n) == SiblingPath(domain, g, d, Shift(i, d), n)
    decreases n
  {
    if n != 0 {
      TreeNodeFrame(domain, f, g, i, d, Sibling(Shift(i, d)));
      ShiftStep(i, d);
      SiblingPathFrame(domain, f, g, i, d + 1, n - 1);
    }
  }

  /** Equal nodes have equal leaves below them. */
  lemma {:induction false} RootPinsLeaves(domain: Domain, f: nat -> Digest, g: nat -> Digest, d: nat, i: nat)
    requires TreeNode(domain, f, d, Shift(i, d)) == TreeNode(domain, g, d, Shift(i, d))
    ensures f(i) == g(i)
    decreases d
  {
    if d != 0 {
      ShiftStep(i, d - 1);
      RootPinsLeaves(domain, f, g, d - 1, i);
    }
  }

  /** The leaves below a node are those below its two children. */
  lemma {:induction false} SubtreeHalves(d: nat, p: nat)
    requires d > 0
    ensures p * Pow2(d) == 2 * p * Pow2(d - 1) <= (2 * p + 1) * Pow2(d - 1)
    ensures (2 * p + 1) * Pow2(d - 1) <= (2 * p + 1 + 1) * Pow2(d - 1) == (p + 1) * Pow2(d)
  {
    var h := Pow2(d - 1);
    assert Pow2(d) == 2 * h;
    assert p * (2 * h) == 2 * p * h;
    assert (p + 1) * (2 * h) == (2 * p + 1 + 1) * h;
  }

  /** Agreeing on all leaves below a node makes the node equal. */
  lemma {:induction false} TreeNodeExtensional(domain: Domain, f: nat -> Digest, g: nat -> Digest, d: nat, p: nat)
    requires forall j: nat :: p * Pow2(d) <= j < (p + 1) * Pow2(d) ==> f(j) == g(j)
    ensures TreeNode(domain, f, d, p) == TreeNode(domain, g, d, p)
    decreases d
  {
    if d != 0 {
      SubtreeHalves(d, p);
      TreeNodeExtensional(domain, f, g, d - 1, 2 * p);
      TreeNodeExtensional(domain, f, g, d - 1, 2 * p + 1);
    }
  }

  /** The fold of `credential_root` and `verify_event_opening`. */
  method FoldPath(domain: Domain, start: nat, leaf: Digest, path: seq<Digest>) returns (current: Digest)
    ensures current == PathRoot(domain, start, leaf, path)
  {
    current := leaf;
    var index := start;
    for k := 0 to |path|
      invariant PathRoot(domain, index, current, path[k..]) == PathRoot(domain, start, leaf, path)
    {
      assert path[k..][1..] == path[k + 1..];
      current := Parent(domain, index, current, path[k]);
      index := index / 2;
    }
  }

  // ----- levels stored bottom-up, as the issuer and the event tree keep them

  function LeafAt(leaves: seq<Digest>): nat -> Digest
  {
    (p: nat) => if p < |leaves| then leaves[p] else Raw(0)
  }

  function NextLevel(domain: Domain, level: seq<Digest>): seq<Digest>
  {
    seq(|level| / 2, p requires 0 <= p < |level| / 2 => Node(domain, level[2 * p], level[2 * p + 1]))
  }

  /** `levels[d][p]` is tree node `(d, p)` and the last level is the root alone. */
  ghost predicate IsTree(domain: Domain, leaf: nat -> Digest, height: nat, levels: seq<seq<Digest>>)
  {
    && |levels| == height + 1
    && forall d: nat :: d <= height ==> IsLevel(domain, leaf, height, d, levels[d])
  }

  ghost predicate IsLevel(domain: Domain, leaf: nat -> Digest, height: nat, d: nat, level: seq<Digest>)
    requires d <= height
  {
    && |level| == Pow2(height - d)
    && forall p: nat :: p < |level| ==> level[p] == TreeNode(domain, leaf, d, p)
  }

  /** The level loop shared by `RegistryIssuer::snapshot` and `event_tree`. */
  method BuildLevels(domain: Domain, leaves: seq<Digest>, ghost height: nat) returns (levels: seq<seq<Digest>>)
    requires |leaves| == Pow2(height)
    ensures IsTree(domain, LeafAt(leaves), height, levels)
  {
    levels := [leaves];
    ghost var d := 0;
    while |levels[|levels| - 1]| > 1
      invariant d <= height && |levels| == d + 1
      invariant forall k: nat :: k <= d ==> IsLevel(domain, LeafAt(leaves), height, k, levels[k])
      decreases height - d
    {
      LevelAbove(domain, LeafAt(leaves), height, d, levels[d]);
      levels := levels + [NextLevel(domain, levels[|levels| - 1])];
      d := d + 1;
    }
    assert IsLevel(domain, LeafAt(leaves), height, d, levels[d]);
    Pow2One(height - d);
  }

  lemma {:induction false} LevelAbove(domain: Domain, leaf: nat -> Digest, height: nat, d: nat, level: seq<Digest>)
    requires d <= height && IsLevel(domain, leaf, height, d, level) && |level| > 1
    ensures d < height && IsLevel(domain, leaf, height, d + 1, NextLevel(domain, level))
  {
    assert Pow2(0) == 1;
    assert Pow2(height - d) == 2 * Pow2(height - d - 1);
  }

  lemma {:induction false} Pow2One(n: nat)
    requires Pow2(n) <= 1
    ensures n == 0
  {
  }

  /** The sibling at each level below the root, least significant index bit first. */
  function LevelPath(levels: seq<seq<Digest>>, index: nat, n: nat): (path: seq<Digest>)
    requires n <= |levels|
    requires forall d: nat :: d < n ==> Sibling(Shift(index, d)) < |levels[d]|
    ensures |path| == n
  {
    seq(n, d requires 0 <= d < n => levels[d][Sibling(Shift(index, d))])
  }

  lemma {:induction false} LevelPathStep(levels: seq<seq<Digest>>, index: nat, n: nat, d: nat)
    requires d < n <= |levels| && forall k: nat :: k < n ==> Sibling(Shift(index, k)) < |levels[k]|
    ensures LevelPath(levels, index, n)[..d + 1]
        == LevelPath(levels, index, n)[..d] + [levels[d][Sibling(Shift(index, d))]]
  {
  }

  lemma {:induction false} SiblingBound(i: nat, d: nat, height: nat)
    requires i < Pow2(height) && d < height
    ensures Sibling(Shift(i, d)) < Pow2(height - d)
  {
    ShiftBound(i, d, height - d);
    assert Pow2(height - d) == 2 * Pow2(height - d - 1);
  }

  lemma {:induction false} SiblingPathAt(domain: Domain, leaf: nat -> Digest, d: nat, i: nat, n: nat, k: nat)
    requires k < n
    ensures SiblingPath(domain, leaf, d, i, n)[k] == TreeNode(domain, leaf, d + k, Sibling(Shift(i, k)))
    decreases k
  {
    if k != 0 { SiblingPathAt(domain, leaf, d + 1, i / 2, n - 1, k - 1); }
  }

  /** The path read off stored levels is the tree's sibling path. */
  lemma {:induction false} LevelPathIsSiblingPath(domain: Domain, leaf: nat -> Digest, height: nat,
                                                  levels: seq<seq<Digest>>, i: nat)
    requires IsTree(domain, leaf, height, levels)
    requires i < Pow2(height)
    ensures forall d: nat :: d < height ==> Sibling(Shift(i, d)) < |levels[d]|
    ensures LevelPath(levels, i, height) == SiblingPath(domain, leaf, 0, i, height)
    ensures levels[height] == [TreeNode(domain, leaf, height, 0)] && Shift(i, height) == 0
  {
    forall d: nat | d < height
      ensures Sibling(Shift(i, d)) < |levels[d]|
    {
      assert IsLevel(domain, leaf, height, d, levels[d]);
      SiblingBound(i, d, height);
    }
    forall d: nat | d < height
      ensures LevelPath(levels, i, height)[d] == SiblingPath(domain, leaf, 0, i, height)[d]
    {
      assert IsLevel(domain, leaf, height, d, levels[d]);
      SiblingPathAt(domain, leaf, 0, i, height, d);
    }
    assert IsLevel(domain, leaf, height, height, levels[height]);
    assert Pow2(0) == 1;
    ShiftBound(i, height, 0);
  }
}
