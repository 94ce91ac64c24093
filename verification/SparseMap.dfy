/**
 * The sparse nullifier map stands for the complete Merkle tree of a set of indices.  The source fixes
 * the depth at 256 with 32-byte indices; here every multiple of eight is covered.
 */
module SparseNullifiers {
  import opened Primitives
  import opened Digests
  import opened PolicyTypes
  import opened Merkle

  function LeafOf(used: set<nat>): nat -> Digest
  {
    (i: nat) => NullifierLeaf(i in used)
  }

  /** The root of the complete tree whose used leaves are `used`. */
  function SetRoot(depth: nat, used: set<nat>): Digest
  {
    TreeNode(NullifierTree, LeafOf(used), depth, 0)
  }

  function DefaultHash(d: nat): Digest
  {
    if d == 0 then NullifierLeaf(false) else Node(NullifierTree, DefaultHash(d - 1), DefaultHash(d - 1))
  }

  lemma {:induction false} DefaultHashIsEmptyNode(d: nat, p: nat)
    ensures DefaultHash(d) == TreeNode(NullifierTree, LeafOf({}), d, p)
  {
    if d != 0 {
      DefaultHashIsEmptyNode(d - 1, 2 * p);
      DefaultHashIsEmptyNode(d - 1, 2 * p + 1);
    }
  }

  /** `nullifier_default_root` is the root of the empty set. */
  method DefaultRoot(depth: nat) returns (current: Digest)
    ensures current == SetRoot(depth, {})
  {
    current := NullifierLeaf(false);
    for d := 0 to depth
      invariant current == DefaultHash(d)
    {
      current := Node(NullifierTree, current, current);
    }
    DefaultHashIsEmptyNode(depth, 0);
  }

  /**
   * Non-membership and update in one path: a path that recomputes the root of `used` from the
   * empty leaf proves the index unused, and from the used leaf gives the root with it added.
   */
  lemma {:induction false} EmptyPathAdvancesRoot(depth: nat, used: set<nat>, i: nat, path: seq<Digest>)
    requires i < Pow2(depth) && |path| == depth
    requires PathRoot(NullifierTree, i, NullifierLeaf(false), path) == SetRoot(depth, used)
    ensures i !in used
    ensures path == SiblingPath(NullifierTree, LeafOf(used), 0, i, depth)
    ensures PathRoot(NullifierTree, i, NullifierLeaf(true), path) == SetRoot(depth, used + {i})
  {
    ShiftBound(i, depth, 0);
    assert Pow2(0) == 1;
    OpeningIsExact(NullifierTree, LeafOf(used), 0, i, NullifierLeaf(false), path);
    SiblingPathFrame(NullifierTree, LeafOf(used), LeafOf(used + {i}), i, 0, depth);
    OpeningIsExact(NullifierTree, LeafOf(used + {i}), 0, i, NullifierLeaf(true), path);
  }

  /** The tree's own sibling path of an unused index opens it to the empty leaf. */
  lemma {:induction false} UnusedOpens(depth: nat, used: set<nat>, i: nat)
    requires i < Pow2(depth) && i !in used
    ensures PathRoot(NullifierTree, i, NullifierLeaf(false), SiblingPath(NullifierTree, LeafOf(used), 0, i, depth))
        == SetRoot(depth, used)
  {
    ShiftBound(i, depth, 0);
    assert Pow2(0) == 1;
    OpeningIsExact(NullifierTree, LeafOf(used), 0, i, NullifierLeaf(false),
                   SiblingPath(NullifierTree, LeafOf(used), 0, i, depth));
  }

  /** Every unused index has such a path; a used one has none. */
  lemma {:induction false} EmptyPathExistsIffUnused(depth: nat, used: set<nat>, i: nat)
    requires i < Pow2(depth)
    ensures i !in used <==>
      exists path: seq<Digest> :: |path| == depth
        && PathRoot(NullifierTree, i, NullifierLeaf(false), path) == SetRoot(depth, used)
  {
    ShiftBound(i, depth, 0);
    assert Pow2(0) == 1;
    if i !in used {
      UnusedOpens(depth, used, i);
    } else {
      forall path: seq<Digest> | |path| == depth
        ensures PathRoot(NullifierTree, i, NullifierLeaf(false), path) != SetRoot(depth, used)
      {
        OpeningIsExact(NullifierTree, LeafOf(used), 0, i, NullifierLeaf(false), path);
      }
    }
  }

  /** The root identifies the set, so it cannot depend on the order of insertions. */
  lemma {:induction false} RootIdentifiesSet(depth: nat, a: set<nat>, b: set<nat>)
    requires forall i :: i in a + b ==> i < Pow2(depth)
    ensures SetRoot(depth, a) == SetRoot(depth, b) <==> a == b
  {
    if SetRoot(depth, a) == SetRoot(depth, b) {
      forall i | i in a + b
        ensures i in a && i in b
      {
        ShiftBound(i, depth, 0);
        assert Pow2(0) == 1;
        RootPinsLeaves(NullifierTree, LeafOf(a), LeafOf(b), depth, i);
        assert LeafOf(a)(i) == LeafOf(b)(i);
      }
      assert a == b;
    }
  }

  // ----- 256-bit indices held as big-endian bytes

  lemma {:induction false} BigEndianBound(b: Bytes)
    ensures BigEndian(b) < Pow2(8 * |b|)
  {
    if b != [] {
      BigEndianBound(b[..|b| - 1]);
      Pow2Add(8 * (|b| - 1), 8);
      assert Pow2(8) == 256;
    }
  }

  function FlipLast(b: Bytes): Bytes
    requires b != []
  {
    b[|b| - 1 := if b[|b| - 1] % 2 == 0 then b[|b| - 1] + 1 else b[|b| - 1] - 1]
  }

  lemma {:induction false} FlipLow(high: nat, low: Byte)
    ensures (0x100 * high + low) % 2 == low % 2
    ensures Sibling(0x100 * high + low) == 0x100 * high + Sibling(low)
  {
    EvenPlus(128 * high, low);
  }

  lemma {:induction false} EvenPlus(k: nat, low: nat)
    ensures (2 * k + low) % 2 == low % 2
  {
  }

  lemma {:induction false} FlipLastIsSibling(b: Bytes)
    requires b != []
    ensures BigEndian(FlipLast(b)) == Sibling(BigEndian(b))
    ensures BigEndian(b) % 2 == b[|b| - 1] % 2
  {
    assert FlipLast(b)[..|b| - 1] == b[..|b| - 1];
    FlipLow(BigEndian(b[..|b| - 1]), b[|b| - 1]);
  }

  /** The in-place carry loop halves the number the bytes denote. */
  method ShiftIndex(a: array<Byte>)
    modifies a
    ensures BigEndian(a[..]) == BigEndian(old(a[..])) / 2
  {
    var carry := 0;
    ghost var was := a[..];
    for k := 0 to a.Length
      invariant a[k..] == was[k..]
      invariant carry == 0 || carry == 128
      invariant BigEndian(was[..k]) == 2 * BigEndian(a[..k]) + carry / 128
    {
      ghost var done := a[..k];
      var next := (a[k] % 2) * 128;
      a[k] := a[k] / 2 + carry;
      carry := next;
      assert a[..k + 1][..k] == done && was[..k + 1][..k] == was[..k];
    }
    assert a[..a.Length] == a[..] && was[..a.Length] == was;
  }

  /** `sparse_root`: the same fold, with the index shifted in place as bytes. */
  method SparseRoot(index: Bytes, leaf: Digest, path: seq<Digest>) returns (current: Digest)
    requires index != []
    ensures current == PathRoot(NullifierTree, BigEndian(index), leaf, path)
  {
    var idx := new Byte[|index|](k requires 0 <= k < |index| => index[k]);
    assert idx[..] == index;
    current := leaf;
    for k := 0 to |path|
      invariant PathRoot(NullifierTree, BigEndian(idx[..]), current, path[k..])
             == PathRoot(NullifierTree, BigEndian(index), leaf, path)
    {
      assert path[k..][1..] == path[k + 1..];
      FlipLastIsSibling(idx[..]);
      current :=
        if idx[|index| - 1] % 2 == 0 then Node(NullifierTree, current, path[k])
        else Node(NullifierTree, path[k], current);
      ShiftIndex(idx);
    }
  }

  function Lookup(nodes: map<(nat, nat), Digest>, defaults: seq<Digest>, d: nat, p: nat): Digest
    requires d < |defaults|
  {
    if (d, p) in nodes then nodes[(d, p)] else defaults[d]
  }

  /** Below height `climbed`, the nodes above `i` already belong to `grown`; all others to `used`. */
  ghost predicate Represents(nodes: map<(nat, nat), Digest>, defaults: seq<Digest>, used: set<nat>,
                             i: nat, climbed: nat, grown: set<nat>)
  {
    forall d: nat, p: nat :: d < |defaults| ==>
      Lookup(nodes, defaults, d, p)
        == TreeNode(NullifierTree, LeafOf(if d < climbed && p == Shift(i, d) then grown else used), d, p)
  }

  lemma {:induction false} RepresentsBefore(nodes: map<(nat, nat), Digest>, defaults: seq<Digest>, used: set<nat>,
                                            i: nat, grown: set<nat>)
    requires Represents(nodes, defaults, used, 0, 0, {})
    ensures Represents(nodes, defaults, used, i, 0, grown)
  {
  }

  lemma {:induction false} Stored(nodes: map<(nat, nat), Digest>, defaults: seq<Digest>, used: set<nat>, d: nat, p: nat)
    requires d < |defaults| && Represents(nodes, defaults, used, 0, 0, {})
    ensures Lookup(nodes, defaults, d, p) == TreeNode(NullifierTree, LeafOf(used), d, p)
  {
  }

  lemma {:induction false} RepresentsStep(nodes: map<(nat, nat), Digest>, defaults: seq<Digest>, used: set<nat>,
                                          i: nat, d: nat, grown: set<nat>)
    requires d < |defaults| && Represents(nodes, defaults, used, i, d, grown)
    ensures Represents(nodes[(d, Shift(i, d)) := TreeNode(NullifierTree, LeafOf(grown), d, Shift(i, d))],
                       defaults, used, i, d + 1, grown)
  {
    var now := nodes[(d, Shift(i, d)) := TreeNode(NullifierTree, LeafOf(grown), d, Shift(i, d))];
    forall k: nat, p: nat | k < |defaults|
      ensures Lookup(now, defaults, k, p)
        == TreeNode(NullifierTree, LeafOf(if k < d + 1 && p == Shift(i, k) then grown else used), k, p)
    {
      assert (k, p) != (d, Shift(i, d)) ==> Lookup(now, defaults, k, p) == Lookup(nodes, defaults, k, p);
    }
  }

  /** One level of the climb after inserting `i`: the sibling is untouched, the parent is rebuilt. */
  lemma {:induction false} ParentAfterInsert(used: set<nat>, i: nat, d: nat)
    ensures Parent(NullifierTree, Shift(i, d), TreeNode(NullifierTree, LeafOf(used + {i}), d, Shift(i, d)),
                   TreeNode(NullifierTree, LeafOf(used), d, Sibling(Shift(i, d))))
         == TreeNode(NullifierTree, LeafOf(used + {i}), d + 1, Shift(i, d + 1))
  {
    ShiftStep(i, d);
    TreeNodeFrame(NullifierTree, LeafOf(used), LeafOf(used + {i}), i, d, Sibling(Shift(i, d)));
  }

  lemma {:induction false} RepresentsAll(nodes: map<(nat, nat), Digest>, defaults: seq<Digest>, used: set<nat>, i: nat)
    requires Represents(nodes, defaults, used, i, |defaults|, used + {i})
    ensures Represents(nodes, defaults, used + {i}, 0, 0, {})
  {
    forall k: nat, p: nat | k < |defaults|
      ensures Lookup(nodes, defaults, k, p) == TreeNode(NullifierTree, LeafOf(used + {i}), k, p)
    {
      if p != Shift(i, k) {
        TreeNodeFrame(NullifierTree, LeafOf(used), LeafOf(used + {i}), i, k, p);
      }
    }
  }

  /** The next sibling read off the stored nodes continues the tree's own path. */
  lemma {:induction false} NextSibling(nodes: map<(nat, nat), Digest>, defaults: seq<Digest>, used: set<nat>, i: nat,
                                       depth: nat, d: nat)
    requires d < depth < |defaults| && Represents(nodes, defaults, used, 0, 0, {})
    ensures var siblings := SiblingPath(NullifierTree, LeafOf(used), 0, i, depth);
      siblings[..d + 1] == siblings[..d] + [Lookup(nodes, defaults, d, Sibling(Shift(i, d)))]
  {
    hide Represents;
    SiblingPathAt(NullifierTree, LeafOf(used), 0, i, depth, d);
    Stored(nodes, defaults, used, d, Sibling(Shift(i, d)));
  }

  lemma {:induction false} LastBit(b: Bytes)
    requires b != []
    ensures BigEndian(b) % 2 == b[|b| - 1] % 2
  {
  }

  /** One round of the climb: the parent is the grown tree's node, and storing it completes one more height. */
  lemma {:induction false} ClimbsOne(nodes: map<(nat, nat), Digest>, defaults: seq<Digest>, used: set<nat>, i: nat,
                                     d: nat, path: seq<Digest>, current: Digest)
    requires d < |path| && d + 1 < |defaults| && path == SiblingPath(NullifierTree, LeafOf(used), 0, i, |path|)
    requires current == TreeNode(NullifierTree, LeafOf(used + {i}), d, Shift(i, d))
    requires Represents(nodes, defaults, used, i, d + 1, used + {i})
    ensures var parent := Parent(NullifierTree, Shift(i, d), current, path[d]);
      && parent == TreeNode(NullifierTree, LeafOf(used + {i}), d + 1, Shift(i, d + 1))
      && Represents(nodes[(d + 1, Shift(i, d + 1)) := parent], defaults, used, i, d + 2, used + {i})
  {
    hide Represents;
    SiblingPathAt(NullifierTree, LeafOf(used), 0, i, |path|, d);
    ParentAfterInsert(used, i, d);
    RepresentsStep(nodes, defaults, used, i, d + 1, used + {i});
  }

  /** `nodes` is keyed by height and by the number its 32-byte index denotes. */
  class SparseNullifierMap {
    const depth: nat
    var nodes: map<(nat, nat), Digest>
    var defaults: seq<Digest>
    ghost var used: set<nat>

    function Value(d: nat, p: nat): Digest
      requires d < |defaults|
      reads this
    {
      Lookup(nodes, defaults, d, p)
    }

    ghost predicate Valid()
      reads this
    {
      && |defaults| == depth + 1
      && (forall i :: i in used ==> i < Pow2(depth))
      && Represents(nodes, defaults, used, 0, 0, {})
    }

    constructor (depth: nat)
      ensures Valid() && used == {} && this.depth == depth
    {
      var hashes := [NullifierLeaf(false)];
      for d := 0 to depth
        invariant |hashes| == d + 1
        invariant forall k: nat :: k <= d ==> hashes[k] == DefaultHash(k)
      {
        hashes := hashes + [Node(NullifierTree, hashes[d], hashes[d])];
      }
      this.depth, nodes, defaults, used := depth, map[], hashes, {};
      forall d: nat, p: nat | d <= depth
        ensures DefaultHash(d) == TreeNode(NullifierTree, LeafOf({}), d, p)
      {
        DefaultHashIsEmptyNode(d, p);
      }
    }

    method Root() returns (root: Digest)
      requires Valid()
      ensures root == SetRoot(depth, used)
    {
      root := Value(depth, 0);
    }

    /** Fails exactly on members; otherwise the path is the tree's own sibling path. */
    method EmptyPath(index: Bytes) returns (r: Result<seq<Digest>, PolicyError>)
      requires Valid() && 8 * |index| == depth && depth > 0
      ensures r == if BigEndian(index) in used then Err(C5Nullifier)
                   else Ok(SiblingPath(NullifierTree, LeafOf(used), 0, BigEndian(index), depth))
    {
      hide Represents;
      ghost var i := BigEndian(index);
      Stored(nodes, defaults, used, 0, i);
      if Value(0, BigEndian(index)) != NullifierLeaf(false) {
        return Err(C5Nullifier);
      }
      var idx := new Byte[|index|](k requires 0 <= k < |index| => index[k]);
      assert idx[..] == index;
      var path := [];
      ghost var siblings := SiblingPath(NullifierTree, LeafOf(used), 0, i, depth);
      for d := 0 to depth
        invariant Valid() && path == siblings[..d]
        invariant BigEndian(idx[..]) == Shift(i, d)
      {
        FlipLastIsSibling(idx[..]);
        NextSibling(nodes, defaults, used, i, depth, d);
        path := path + [Value(d, BigEndian(FlipLast(idx[..])))];
        ShiftIndex(idx);
        ShiftStep(i, d);
      }
      assert siblings[..depth] == siblings;
      return Ok(path);
    }

    /** The climbing loop of `insert`: rewrites the nodes above an unused index. */
    method StoreBranch(index: Bytes, path: seq<Digest>)
      requires Valid() && 8 * |index| == depth && depth > 0
      requires path == SiblingPath(NullifierTree, LeafOf(used), 0, BigEndian(index), depth)
      modifies this`nodes
      ensures Represents(nodes, defaults, used + {BigEndian(index)}, 0, 0, {})
    {
      hide Represents;
      ghost var i := BigEndian(index);
      ghost var grown := used + {i};
      RepresentsBefore(nodes, defaults, used, i, grown);
      var idx := new Byte[|index|](k requires 0 <= k < |index| => index[k]);
      assert idx[..] == index;
      var current := NullifierLeaf(true);
      RepresentsStep(nodes, defaults, used, i, 0, grown);
      nodes := nodes[(0, BigEndian(index)) := current];
      for d := 0 to depth
        invariant BigEndian(idx[..]) == Shift(i, d)
        invariant current == TreeNode(NullifierTree, LeafOf(grown), d, Shift(i, d))
        invariant Represents(nodes, defaults, used, i, d + 1, grown)
      {
        LastBit(idx[..]);
        ClimbsOne(nodes, defaults, used, i, d, path, current);
        current :=
          if idx[|index| - 1] % 2 == 0 then Node(NullifierTree, current, path[d])
          else Node(NullifierTree, path[d], current);
        ShiftIndex(idx);
        ShiftStep(i, d);
        nodes := nodes[(d + 1, BigEndian(idx[..])) := current];
      }
      RepresentsAll(nodes, defaults, used, i);
    }

    /** Adds an unused index, changing exactly the nodes above it; a used index changes nothing. */
    method Insert(index: Bytes) returns (r: Result<(), PolicyError>)
      requires Valid() && 8 * |index| == depth && depth > 0
      modifies this
      ensures Valid() && defaults == old(defaults)
      ensures r == if BigEndian(index) in old(used) then Err(C5Nullifier) else Ok(())
      ensures used == old(used) + {BigEndian(index)}
      ensures r.Err? ==> nodes == old(nodes)
    {
      var found := EmptyPath(index);
      if found.Err? {
        return Err(found.error);
      }
      StoreBranch(index, found.value);
      used := used + {BigEndian(index)};
      BigEndianBound(index);
      return Ok(());
    }
  }
}
