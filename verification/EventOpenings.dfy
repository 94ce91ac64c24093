/** Opening single events against a batch commitment. */
module EventOpenings {
  import opened Primitives
  import opened Digests
  import opened PolicyTypes
  import opened Merkle
  import opened Policy

  predicate OpeningVerifies(count: nat, index: nat, salt: Digest, bytes: Bytes, path: seq<Digest>, commitment: Digest)
  {
    && MIN_EVENTS <= count <= MAX_EVENTS && index < count && |path| == TreeHeight(count)
    && EventBatch(count, PathRoot(EventTree, index, EventLeaf(index, salt, bytes), path)) == commitment
  }

  /** `verify_event_opening`. */
  method VerifyEventOpening(count: nat, index: nat, salt: Digest, bytes: Bytes, path: seq<Digest>, commitment: Digest)
      returns (ok: bool)
    ensures ok == OpeningVerifies(count, index, salt, bytes, path, commitment)
  {
    if !(MIN_EVENTS <= count <= MAX_EVENTS) || index >= count || |path| != TreeHeight(count) {
      return false;
    }
    var node := FoldPath(EventTree, index, EventLeaf(index, salt, bytes), path);
    return EventBatch(count, node) == commitment;
  }

  function OpeningPath(events: seq<EventWitness>, nonce: Digest, index: nat): seq<Digest>
  {
    SiblingPath(EventTree, EventLeaves(events, nonce), 0, index, TreeHeight(|events|))
  }

  /**
   * Openings are complete and binding: against the commitment of a batch of 8 to 64 events exactly one
   * count, salt, payload and path verify for each slot, also when the tree is padded.
   */
  lemma {:induction false} OpeningIsComplete(events: seq<EventWitness>, nonce: Digest, count: nat, index: nat,
                                             salt: Digest, bytes: Bytes, path: seq<Digest>)
    requires MIN_EVENTS <= |events| <= MAX_EVENTS
    ensures OpeningVerifies(count, index, salt, bytes, path, EventBatchCommitment(events, nonce)) <==>
      && count == |events| && index < |events|
      && salt == EventSalt(nonce, index) && bytes == events[index].eventBytes
           && path == OpeningPath(events, nonce, index)
  {
    var height := TreeHeight(|events|);
    assert |OpeningPath(events, nonce, index)| == height;
    if count == |events| && index < |events| && |path| == height {
      SlotIsExact(events, nonce, index, salt, bytes, path);
    }
  }

  /** A path recomputes the batch's root from a slot exactly when salt, payload and path are the batch's own. */
  lemma {:induction false} SlotIsExact(events: seq<EventWitness>, nonce: Digest, index: nat, salt: Digest, bytes: Bytes,
                                       path: seq<Digest>)
    requires index < |events| && |path| == TreeHeight(|events|)
    ensures PathRoot(EventTree, index, EventLeaf(index, salt, bytes), path)
         == TreeNode(EventTree, EventLeaves(events, nonce), |path|, 0)
       <==> salt == EventSalt(nonce, index) && bytes == events[index].eventBytes
            && path == OpeningPath(events, nonce, index)
  {
    var leaves := EventLeaves(events, nonce);
    ShiftBound(index, |path|, 0);
    assert Pow2(0) == 1;
    OpeningIsExact(EventTree, leaves, 0, index, EventLeaf(index, salt, bytes), path);
    assert leaves(index) == EventLeaf(index, EventSalt(nonce, index), events[index].eventBytes);
  }

  /** The path loop of `open_bundle` over the stored levels. */
  method OpenEvent(events: seq<EventWitness>, nonce: Digest, index: nat) returns (path: seq<Digest>)
    requires index < |events|
    ensures path == OpeningPath(events, nonce, index)
  {
    var levels := BuildEventTree(events, nonce);
    LevelPathIsSiblingPath(EventTree, EventLeaves(events, nonce), TreeHeight(|events|), levels, index);
    path := [];
    var slot := index;
    for d := 0 to |levels| - 1
      invariant slot == Shift(index, d)
      invariant path == LevelPath(levels, index, |levels| - 1)[..d]
    {
      assert Sibling(Shift(index, d)) < |levels[d]|;
      LevelPathStep(levels, index, |levels| - 1, d);
      path := path + [levels[d][Sibling(slot)]];
      ShiftStep(index, d);
      slot := slot / 2;
    }
  }
}
