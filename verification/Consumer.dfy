/**
 * The consumer of one paced cell in proposed mode: leaves are proved against the running nullifier map,
 * epochs are aggregated and anchored, and events and shipments are accounted for.
 */
module Consumer {
  import opened Primitives
  import opened Digests
  import opened Sequences
  import opened Workload
  import opened Epoch
  import opened ReductionTree
  import opened Preparation
  import opened Chronicle
  import Policy
  import SparseNullifiers
  import Registry
  import NoLotTwice
  import Archive
  import Disclosure
  import Producer

  // ----- the accounts

  /** One anchored epoch: its accounted totals and the aggregate's public values. */
  datatype Sample = Sample(epochId: U64, events: nat, shipments: nat, lots: nat, values: EpochPublicValues)

  function SampleEvents(samples: seq<Sample>): nat
  {
    if samples == [] then 0 else SampleEvents(samples[..|samples| - 1]) + samples[|samples| - 1].events
  }

  function SampleShipments(samples: seq<Sample>): nat
  {
    if samples == [] then 0 else SampleShipments(samples[..|samples| - 1]) + samples[|samples| - 1].shipments
  }

  function SampleLots(samples: seq<Sample>): nat
  {
    if samples == [] then 0 else SampleLots(samples[..|samples| - 1]) + samples[|samples| - 1].lots
  }

  function SampleIds(samples: seq<Sample>): seq<U64>
  {
    if samples == [] then [] else SampleIds(samples[..|samples| - 1]) + [samples[|samples| - 1].epochId]
  }

  /** The root after the anchored epochs, starting from `start`. */
  function AnchoredRoot(samples: seq<Sample>, start: Digest): Digest
  {
    if samples == [] then start else samples[|samples| - 1].values.newNullifierRoot
  }

  /** Each anchored aggregate starts from the previous one's new root and reports the accounted events and lots. */
  ghost predicate Anchored(samples: seq<Sample>, start: Digest)
  {
    samples != [] ==>
      var before, last := samples[..|samples| - 1], samples[|samples| - 1];
      && Anchored(before, start)
      && last.values.oldNullifierRoot == AnchoredRoot(before, start)
      && last.values.eventCount == last.events && last.values.lotCount == last.lots
  }

  /** Proved leaves lead from one root to another, each with its acknowledged number of events. */
  ghost predicate LeadsTo(leaves: seq<Words>, counts: seq<nat>, start: Digest, end: Digest)
  {
    && |leaves| == |counts|
    && if leaves == [] then start == end
       else
         var n := |leaves| - 1;
         leaves[n][2] == end && leaves[n][9] == Raw(counts[n]) && LeadsTo(leaves[..n], counts[..n], start, leaves[n][1])
  }

  lemma {:induction false} LeadsToEnds(leaves: seq<Words>, counts: seq<nat>, start: Digest, end: Digest)
    requires LeadsTo(leaves, counts, start, end) && leaves != []
    ensures leaves[0][1] == start && leaves[|leaves| - 1][2] == end
  {
    var n := |leaves| - 1;
    if n > 0 { LeadsToEnds(leaves[..n], counts[..n], start, leaves[n][1]); }
  }

  lemma {:induction false} LeadsToEvents(leaves: seq<Words>, counts: seq<nat>, start: Digest, end: Digest)
    requires LeadsTo(leaves, counts, start, end)
    ensures TotalEvents(Archive.LeafNodes(leaves)) == Sum(counts) && TotalLots(Archive.LeafNodes(leaves)) == |leaves|
  {
    if leaves != [] {
      var n := |leaves| - 1;
      assert Archive.LeafNodes(leaves)[..n] == Archive.LeafNodes(leaves[..n]);
      LeadsToEvents(leaves[..n], counts[..n], start, leaves[n][1]);
    }
  }

  lemma {:induction false} LeadsToSnoc(leaves: seq<Words>, counts: seq<nat>, start: Digest, middle: Digest,
                                       leaf: Words, count: nat)
    requires LeadsTo(leaves, counts, start, middle) && leaf[1] == middle && leaf[9] == Raw(count)
    ensures LeadsTo(leaves + [leaf], counts + [count], start, leaf[2])
  {
    assert (leaves + [leaf])[..|leaves|] == leaves && (counts + [count])[..|leaves|] == counts;
  }

  /** The aggregate of a nonempty stretch of leaves: first old root, last new root, all events and lots. */
  lemma {:induction false} AggregateSpans(keys: Keys, leaves: seq<Words>, counts: seq<nat>, start: Digest, end: Digest)
    requires LeadsTo(leaves, counts, start, end) && Reduce(keys, Archive.LeafNodes(leaves)).Ok?
    ensures var v := Reduce(keys, Archive.LeafNodes(leaves)).value;
      v.oldNullifierRoot == start && v.newNullifierRoot == end && v.eventCount == Sum(counts) && v.lotCount == |leaves|
  {
    ReductionMeansList(keys, Archive.LeafNodes(leaves));
    LeadsToEnds(leaves, counts, start, end);
    LeadsToEvents(leaves, counts, start, end);
  }

  /** What the anchor reports back; gas and calldata may be missing or unreadable. */
  datatype Receipt = Receipt(newRoot: Digest, gasUsed: Option<nat>, calldataBytes: Option<nat>)

  predicate CompleteReceipt(receipt: Option<Receipt>)
  {
    receipt.Some? && receipt.value.gasUsed.Some? && receipt.value.calldataBytes.Some?
  }

  /** What aggregating and anchoring a batch comes to, when the map's root is `root`. */
  ghost function EpochVerdict(setup: Setup, batch: seq<Words>, root: Digest, aggregated: bool,
                              receipt: Option<Receipt>):
      (r: Result<EpochPublicValues, Failure>)
    ensures r.Ok? ==> Reduce(setup.keys, Archive.LeafNodes(batch)) == Ok(r.value)
  {
    var reduced := Reduce(setup.keys, Archive.LeafNodes(batch));
    if batch == [] then Err(NoLeaves)
    else if reduced.Err? || !aggregated then Err(AggregationFailed)
    else if receipt.None? then Err(AnchorRejected)
    else if receipt.value.newRoot != root then Err(RootDisagrees)
    else Ok(reduced.value)
  }

  /** The accumulators of the consumer loop, with the messages taken so far. */
  datatype Books = Books(
    leaves: seq<Words>, acknowledged: seq<nat>, leafCount: nat, samples: seq<Sample>,
    previousEvents: nat, previousShipments: nat, previousLeaves: nat,
    committedEvents: nat, committedShipments: nat, pendingShipments: nat, epochsCompleted: nat, taken: seq<Message>)

  /**
   * Committed plus pending is what was taken, samples add up to the committed totals, and roots connect
   * from `start` to `current`.
   */
  ghost predicate Balanced(b: Books, start: Digest, current: Digest)
  {
    && b.committedEvents + Sum(b.acknowledged) == EventsIn(b.taken)
    && b.committedShipments + b.pendingShipments == ShipmentsIn(b.taken)
    && b.previousLeaves + |b.leaves| == b.leafCount == LeavesIn(b.taken)
    && SampleEvents(b.samples) == b.committedEvents == b.previousEvents
    && SampleShipments(b.samples) == b.committedShipments == b.previousShipments
    && SampleLots(b.samples) == b.previousLeaves
    && |b.samples| == b.epochsCompleted == EndsIn(b.taken) && SampleIds(b.samples) == EndIds(b.taken)
    && Anchored(b.samples, start)
    && LeadsTo(b.leaves, b.acknowledged, AnchoredRoot(b.samples, start), current)
    && (b.taken == [] || b.taken[|b.taken| - 1].EpochEnd? ==> b.leaves == [] && b.pendingShipments == 0)
  }

  function WithLeaf(b: Books, task: LeafTask, leaf: Words): Books
  {
    b.(leaves := b.leaves + [leaf], acknowledged := b.acknowledged + [|task.events|], leafCount := b.leafCount + 1,
       pendingShipments := b.pendingShipments + (if task.shipmentEnd then 1 else 0),
       taken := b.taken + [LeafMessage(task)])
  }

  lemma {:induction false} LeafKeepsBalance(b: Books, start: Digest, current: Digest, task: LeafTask, leaf: Words)
    requires Balanced(b, start, current) && leaf[1] == current && leaf[9] == Raw(|task.events|)
    ensures Balanced(WithLeaf(b, task, leaf), start, leaf[2])
  {
    LeadsToSnoc(b.leaves, b.acknowledged, AnchoredRoot(b.samples, start), current, leaf, |task.events|);
    TakenSnoc(b.taken, LeafMessage(task));
    EndIdsSnoc(b.taken, LeafMessage(task));
    SumConcat(b.acknowledged, [|task.events|]);
  }

  /** The pending epoch as it is accounted for when its aggregate with public values `v` is anchored. */
  function PendingSample(b: Books, epochId: U64, v: EpochPublicValues): Sample
  {
    Sample(epochId, Sum(b.acknowledged), b.pendingShipments, |b.leaves|, v)
  }

  /** Everything pending moved to the committed totals. */
  function WithCommitted(b: Books): Books
  {
    b.(leaves := [], acknowledged := [], committedEvents := b.committedEvents + Sum(b.acknowledged),
       committedShipments := b.committedShipments + b.pendingShipments, pendingShipments := 0)
  }

  function WithEpoch(b: Books, epochId: U64, v: EpochPublicValues): Books
  {
    var events, shipments := b.committedEvents + Sum(b.acknowledged), b.committedShipments + b.pendingShipments;
    Books([], [], b.leafCount, b.samples + [PendingSample(b, epochId, v)], events, shipments, b.leafCount,
          events, shipments, 0, b.epochsCompleted + 1, b.taken + [EpochEnd(epochId)])
  }

  lemma {:induction false} EpochKeepsBalance(keys: Keys, b: Books, start: Digest, current: Digest, epochId: U64)
    requires Balanced(b, start, current) && Reduce(keys, Archive.LeafNodes(b.leaves)).Ok?
    ensures Balanced(WithEpoch(b, epochId, Reduce(keys, Archive.LeafNodes(b.leaves)).value), start, current)
  {
    hide Reduce;
    var v := Reduce(keys, Archive.LeafNodes(b.leaves)).value;
    AggregateSpans(keys, b.leaves, b.acknowledged, AnchoredRoot(b.samples, start), current);
    TakenSnoc(b.taken, EpochEnd(epochId));
    EndIdsSnoc(b.taken, EpochEnd(epochId));
    assert (b.samples + [PendingSample(b, epochId, v)])[..|b.samples|] == b.samples;
  }

  /** The books balance against the map's root, and map, inputs and pending leaves are those of the messages taken. */
  ghost predicate Consistent(setup: Setup, b: Books, inputs: seq<Policy.PolicyInput>, used: set<nat>)
  {
    && Balanced(b, SparseNullifiers.SetRoot(setup.env.depth, {}), SparseNullifiers.SetRoot(setup.env.depth, used))
    && used == UsedBy(setup, b.taken) && |used| == LeavesIn(b.taken)
    && Recorded(setup, b.taken, inputs, b.leaves) && UnderPolicy(setup, b.leaves, b.samples)
  }

  /** Every pending leaf and every anchored epoch is under the certificate root and polygon of the run. */
  ghost predicate UnderPolicy(setup: Setup, leaves: seq<Words>, samples: seq<Sample>)
  {
    && (forall leaf :: leaf in leaves ==> (leaf[4], leaf[5]) == PolicyPair(setup))
    && forall sample :: sample in samples ==>
        (sample.values.certificateRoot, sample.values.polygonCommitment) == PolicyPair(setup)
  }

  /** An aggregate of leaves under the run's policy is under it. */
  lemma {:induction false} AggregateUnderPolicy(setup: Setup, leaves: seq<Words>, samples: seq<Sample>)
    requires UnderPolicy(setup, leaves, samples) && Reduce(setup.keys, Archive.LeafNodes(leaves)).Ok?
    ensures var v := Reduce(setup.keys, Archive.LeafNodes(leaves)).value;
      (v.certificateRoot, v.polygonCommitment) == PolicyPair(setup)
  {
    hide Reduce;
    hide PolicyPair;
    ReductionMeansList(setup.keys, Archive.LeafNodes(leaves));
    assert leaves[0] in leaves && Archive.LeafNodes(leaves)[0] == Leaf(leaves[0]);
  }

  lemma {:induction false} LeafBooked(setup: Setup, b: Books, inputs: seq<Policy.PolicyInput>, used: set<nat>,
                                      task: LeafTask, input: Policy.PolicyInput, leaf: Words)
    requires Consistent(setup, b, inputs, used) && BigEndian(IndexOf(setup, task.lotId)) !in used
    requires LeafMoves(setup, used, task, leaf) && Publishes(setup, used, task, input, leaf)
    ensures Consistent(setup, WithLeaf(b, task, leaf), inputs + [input], used + {BigEndian(IndexOf(setup, task.lotId))})
  {
    hide Policy.Evaluate;
    var start, root := SparseNullifiers.SetRoot(setup.env.depth, {}), SparseNullifiers.SetRoot(setup.env.depth, used);
    LeafKeepsBalance(b, start, root, task, leaf);
    hide PolicyPair;
    LeafUses(setup, b.taken, task);
    LeafRecorded(setup, b.taken, inputs, b.leaves, task, input, leaf);
  }

  lemma {:induction false} SamplesAreCurrent(setup: Setup, b: Books, inputs: seq<Policy.PolicyInput>, used: set<nat>)
    requires Consistent(setup, b, inputs, used)
    ensures b.previousEvents == b.committedEvents && b.previousShipments == b.committedShipments
    ensures b.previousLeaves + |b.leaves| == b.leafCount
  {
  }

  lemma {:induction false} EpochBooked(setup: Setup, b: Books, inputs: seq<Policy.PolicyInput>, used: set<nat>,
                                       epochId: U64)
    requires Consistent(setup, b, inputs, used) && Reduce(setup.keys, Archive.LeafNodes(b.leaves)).Ok?
    ensures Consistent(setup, WithEpoch(b, epochId, Reduce(setup.keys, Archive.LeafNodes(b.leaves)).value), inputs,
                       used)
  {
    hide Policy.Evaluate;
    var start, root := SparseNullifiers.SetRoot(setup.env.depth, {}), SparseNullifiers.SetRoot(setup.env.depth, used);
    EpochKeepsBalance(setup.keys, b, start, root, epochId);
    AggregateUnderPolicy(setup, b.leaves, b.samples);
    EpochUses(setup, b.taken, epochId);
    EndRecorded(setup, b.taken, inputs, b.leaves, epochId);
  }

  /** A proved leaf and the input it was proved for. */
  datatype Proven = Proven(words: Words, input: Policy.PolicyInput)

  /** Every anchored epoch starts from its predecessor's new root, and its aggregate reports the accounted totals. */
  lemma {:induction false} EpochsConnect(samples: seq<Sample>, start: Digest, k: nat)
    requires Anchored(samples, start) && k < |samples|
    ensures samples[k].values.oldNullifierRoot == if k == 0 then start else samples[k - 1].values.newNullifierRoot
    ensures samples[k].values.eventCount == samples[k].events && samples[k].values.lotCount == samples[k].lots
  {
    if k < |samples| - 1 { EpochsConnect(samples[..|samples| - 1], start, k); }
  }

  datatype Status = Complete | Censored | Saturated

  /** A received message with what the outside world does: time, the prover and the anchor's answer. */
  datatype Arrival = Arrival(message: Message, expired: bool, proved: bool, receipt: Option<Receipt>)

  /** The fixed-width event bytes of the source's types. */
  ghost predicate Fixed(arrival: Arrival)
  {
    arrival.message.LeafMessage? ==> FixedWidth(arrival.message.leaf)
  }

  /** The error of a step, if it failed. */
  function Refusal(step: Result<(), Failure>): Option<Failure>
  {
    if step.Err? then Some(step.error) else None
  }

  /** An epoch's end fails as its verdict says, and then if the receipt is incomplete. */
  function EpochRefusal(verdict: Result<EpochPublicValues, Failure>, receipt: Option<Receipt>): Option<Failure>
  {
    if verdict.Err? then Some(verdict.error) else if !CompleteReceipt(receipt) then Some(ReceiptIncomplete) else None
  }

  ghost predicate AllFixed(arrivals: seq<Arrival>)
  {
    forall k: nat :: k < |arrivals| ==> Fixed(arrivals[k])
  }

  class Cell {
    const setup: Setup
    const nullifiers: SparseNullifiers.SparseNullifierMap
    var leaves: seq<Words>
    var acknowledged: seq<nat>
    var leafCount: nat
    var samples: seq<Sample>
    var previousEvents: nat
    var previousShipments: nat
    var previousLeaves: nat
    var committedEvents: nat
    var committedShipments: nat
    var pendingShipments: nat
    var epochsCompleted: nat
    ghost var taken: seq<Message>
    ghost var inputs: seq<Policy.PolicyInput>

    ghost function Ledger(): Books
      reads this
    {
      Books(leaves, acknowledged, leafCount, samples, previousEvents, previousShipments, previousLeaves,
            committedEvents, committedShipments, pendingShipments, epochsCompleted, taken)
    }

    ghost function CurrentRoot(): Digest
      reads nullifiers
    {
      SparseNullifiers.SetRoot(setup.env.depth, nullifiers.used)
    }

    ghost predicate Configured()
      reads nullifiers
    {
      && Policy.ValidEnv(setup.env) && Registry.ValidSnapshot(setup.env, setup.snapshot)
      && nullifiers.Valid() && nullifiers.depth == setup.env.depth
    }

    ghost predicate Valid()
      reads this, nullifiers
    {
      Configured() && Consistent(setup, Ledger(), inputs, nullifiers.used)
    }

    constructor (setup: Setup)
      requires Policy.ValidEnv(setup.env) && Registry.ValidSnapshot(setup.env, setup.snapshot)
      ensures Valid() && taken == [] && fresh(nullifiers) && this.setup == setup
    {
      this.setup := setup;
      var tree := new SparseNullifiers.SparseNullifierMap(setup.env.depth);
      nullifiers := tree;
      leaves, acknowledged, leafCount, samples := [], [], 0, [];
      previousEvents, previousShipments, previousLeaves := 0, 0, 0;
      committedEvents, committedShipments, pendingShipments, epochsCompleted := 0, 0, 0, 0;
      taken, inputs := [], [];
    }

    /** Builds, evaluates and proves one leaf against the map's current root. */
    method ProveLeaf(task: LeafTask, proved: bool) returns (r: Result<Proven, Failure>)
      requires Configured() && FixedWidth(task)
      ensures r.Err? <==> LeafVerdict(setup, nullifiers.used, task, proved).Some?
      ensures r.Err? ==> LeafVerdict(setup, nullifiers.used, task, proved) == Some(r.error)
      ensures r.Ok? ==> LeafMoves(setup, nullifiers.used, task, r.value.words)
      ensures r.Ok? ==> Publishes(setup, nullifiers.used, task, r.value.input, r.value.words)
    {
      var key := setup.keyOf(task.lotId);
      var root := nullifiers.Root();
      var path := nullifiers.EmptyPath(IndexOf(setup, task.lotId));
      if path.Err? { return Err(PathUsed); }
      var input := PrepareInput(setup.env, setup.snapshot, task, root, key, path.value, setup.owner,
                                setup.nonceOf(task.lotId));
      if input.None? { return Err(BadEvents); }
      var expected := Policy.EvaluateInput(setup.env, input.value);
      PreparedIsAccepted(setup, task, nullifiers.used, input.value);
      if expected.Err? { return Err(PolicyRejected); }
      if !proved { return Err(ProofFailed); }
      AcceptedLeafMoves(setup.env, input.value, nullifiers.used);
      LeafWords(expected.value);
      return Ok(Proven(Disclosure.LeafAbi(expected.value), input.value));
    }

    /**
     * The arm for a leaf: refused exactly as `LeafVerdict` says; otherwise the proved leaf extends the root
     * chain.  The two later nullifier checks never fail.
     */
    method TakeLeaf(task: LeafTask, proved: bool) returns (r: Result<(), Failure>)
      requires Valid() && FixedWidth(task)
      modifies this, nullifiers
      ensures r.Err? <==> LeafVerdict(setup, old(nullifiers.used), task, proved).Some?
      ensures r.Err? ==> LeafVerdict(setup, old(nullifiers.used), task, proved) == Some(r.error)
      ensures r.Ok? ==>
        && Valid() && nullifiers.used == old(nullifiers.used) + {BigEndian(IndexOf(setup, task.lotId))}
        && exists leaf :: Ledger() == WithLeaf(old(Ledger()), task, leaf)
      ensures r.Err? ==> Valid() && Ledger() == old(Ledger()) && nullifiers.used == old(nullifiers.used)
    {
      var leaf := ProveLeaf(task, proved);
      if leaf.Err? { return Err(leaf.error); }
      r := BookLeaf(task, leaf.value.words, leaf.value.input);
    }

    /** Inserts the nullifier, compares the roots and books the leaf. */
    method BookLeaf(task: LeafTask, leaf: Words, ghost input: Policy.PolicyInput) returns (r: Result<(), Failure>)
      requires Valid() && LeafMoves(setup, nullifiers.used, task, leaf)
          && Publishes(setup, nullifiers.used, task, input, leaf)
      requires BigEndian(IndexOf(setup, task.lotId)) !in nullifiers.used
      modifies this, nullifiers
      ensures r.Ok? && Valid() && nullifiers.used == old(nullifiers.used) + {BigEndian(IndexOf(setup, task.lotId))}
      ensures Ledger() == WithLeaf(old(Ledger()), task, leaf)
    {
      hide Consistent;
      hide Publishes;
      hide SparseNullifiers.Represents;
      LeafBooked(setup, Ledger(), inputs, nullifiers.used, task, input, leaf);
      var inserted := nullifiers.Insert(IndexOf(setup, task.lotId));
      if inserted.Err? { return Err(NullifierUsed); }
      var after := nullifiers.Root();
      if after != leaf[2] { return Err(MapDiverged); }
      RecordLeaf(task, leaf, input);
      return Ok(());
    }

    method RecordLeaf(task: LeafTask, leaf: Words, ghost input: Policy.PolicyInput)
      modifies this
      ensures Ledger() == WithLeaf(old(Ledger()), task, leaf) && inputs == old(inputs) + [input]
    {
      leafCount := leafCount + 1;
      if task.shipmentEnd { pendingShipments := pendingShipments + 1; }
      acknowledged := acknowledged + [|task.events|];
      leaves := leaves + [leaf];
      taken, inputs := taken + [LeafMessage(task)], inputs + [input];
    }

    /** Draining the acknowledgements into the committed total. */
    method CommitAcknowledged()
      modifies this`committedEvents, this`acknowledged
      ensures Ledger()
          == old(Ledger()).(committedEvents := old(committedEvents + Sum(acknowledged)), acknowledged := [])
    {
      for k := 0 to |acknowledged|
        invariant Ledger() == old(Ledger()).(committedEvents := old(committedEvents) + Sum(old(acknowledged)[..k]))
      {
        assert acknowledged[..k + 1][..k] == acknowledged[..k];
        committedEvents := committedEvents + acknowledged[k];
      }
      assert acknowledged[..|acknowledged|] == acknowledged;
      acknowledged := [];
    }

    /** Moves everything pending to committed. */
    method CommitPending(ghost before: Books)
      requires Ledger() == before.(leaves := [])
      modifies this`committedEvents, this`acknowledged, this`committedShipments, this`pendingShipments
      ensures Ledger() == WithCommitted(before)
    {
      CommitAcknowledged();
      committedShipments := committedShipments + pendingShipments;
      pendingShipments := 0;
    }

    /** Records the sample of an epoch whose totals have been committed. */
    method RecordEpoch(ghost before: Books, epochId: U64, v: EpochPublicValues)
      requires Ledger() == WithCommitted(before)
      requires before.previousEvents == before.committedEvents && before.previousShipments == before.committedShipments
      requires before.previousLeaves + |before.leaves| == before.leafCount
      modifies this`samples, this`previousEvents, this`previousShipments, this`previousLeaves, this`epochsCompleted,
          this`taken
      ensures Ledger() == WithEpoch(before, epochId, v)
    {
      samples := samples + [Sample(epochId, committedEvents - previousEvents, committedShipments - previousShipments,
                                   leafCount - previousLeaves, v)];
      previousEvents, previousShipments, previousLeaves := committedEvents, committedShipments, leafCount;
      epochsCompleted := epochsCompleted + 1;
      taken := taken + [EpochEnd(epochId)];
    }

    /** Aggregates a batch and asks the anchor. */
    method AnchorEpoch(batch: seq<Words>, aggregated: bool, receipt: Option<Receipt>)
        returns (r: Result<EpochPublicValues, Failure>)
      requires Configured()
      ensures r == EpochVerdict(setup, batch, CurrentRoot(), aggregated, receipt)
    {
      if batch == [] { return Err(NoLeaves); }
      var archived := Archive.ArchiveTree(setup.keys, batch);
      if archived.Err? || !aggregated { return Err(AggregationFailed); }
      if receipt.None? { return Err(AnchorRejected); }
      var root := nullifiers.Root();
      if receipt.value.newRoot != root { return Err(RootDisagrees); }
      return Ok(archived.value.0);
    }

    /**
     * The arm for an epoch's end: aggregate, anchor, then account for the epoch.  An incomplete receipt is
     * noticed only after the totals have been committed.
     */
    method CloseEpoch(epochId: U64, aggregated: bool, receipt: Option<Receipt>) returns (r: Result<(), Failure>)
      requires Valid()
      modifies this
      ensures var verdict := EpochVerdict(setup, old(leaves), CurrentRoot(), aggregated, receipt);
        && (verdict.Err? ==> r == Err(verdict.error) && Ledger() == old(Ledger()).(leaves := []))
        && (verdict.Ok? && !CompleteReceipt(receipt) ==>
             r == Err(ReceiptIncomplete) && Ledger() == WithCommitted(old(Ledger())))
        && (verdict.Ok? && CompleteReceipt(receipt) ==>
             r == Ok(()) && Valid() && Ledger() == WithEpoch(old(Ledger()), epochId, verdict.value))
    {
      hide Consistent;
      hide EpochVerdict;
      hide SparseNullifiers.Represents;
      ghost var before := Ledger();
      var batch := leaves;
      leaves := [];
      var anchored := AnchorEpoch(batch, aggregated, receipt);
      if anchored.Err? { return Err(anchored.error); }
      CommitPending(before);
      if !CompleteReceipt(receipt) { return Err(ReceiptIncomplete); }
      SamplesAreCurrent(setup, before, inputs, nullifiers.used);
      EpochBooked(setup, before, inputs, nullifiers.used, epochId);
      RecordEpoch(before, epochId, anchored.value);
      return Ok(());
    }

    method TakeMessage(arrival: Arrival) returns (r: Result<(), Failure>)
      requires Valid() && Fixed(arrival)
      modifies this, nullifiers
      ensures r.Ok? ==> Valid() && taken == old(taken) + [arrival.message]
      ensures arrival.message.LeafMessage? ==>
        Refusal(r) == LeafVerdict(setup, UsedBy(setup, old(taken)), arrival.message.leaf, arrival.proved)
      ensures arrival.message.EpochEnd? ==>
        var verdict := EpochVerdict(setup, old(leaves), old(CurrentRoot()), arrival.proved, arrival.receipt);
        Refusal(r) == EpochRefusal(verdict, arrival.receipt)
    {
      hide LeafVerdict;
      hide Reduce;
      hide Recorded;
      match arrival.message
      case LeafMessage(task) => r := TakeLeaf(task, arrival.proved);
      case EpochEnd(epochId) => r := CloseEpoch(epochId, arrival.proved, arrival.receipt);
    }

    lemma {:induction false} ValidParts()
      requires Valid()
      ensures Configured() && Policy.ValidEnv(setup.env) && Consistent(setup, Ledger(), inputs, nullifiers.used)
      ensures CurrentRoot() == SparseNullifiers.SetRoot(setup.env.depth, nullifiers.used)
    {
    }

    /** One round of the receive loop: the deadline first, then the message. */
    method TakeArrival(ghost tasks: seq<seq<LeafTask>>, arrivals: seq<Arrival>, k: nat)
        returns (reason: Option<Failure>, saturated: bool)
      requires Valid() && AllFixed(arrivals) && k < |arrivals| && taken == Messages(arrivals[..k])
      modifies this, nullifiers
      ensures saturated == arrivals[k].expired && (saturated ==> reason == None)
      ensures saturated ==> Valid() && taken == old(taken)
      ensures reason == None && !saturated ==> Valid() && taken == Messages(arrivals[..k + 1])
      ensures Scheduled(tasks, arrivals) && !saturated ==> reason == ArrivalVerdict(setup, arrivals, k)
    {
      hide Consistent;
      hide Valid;
      hide Scheduled;
      hide ArrivalVerdict;
      if arrivals[k].expired { return None, true; }
      ghost var books, used, before := Ledger(), nullifiers.used, inputs;
      NextMessage(arrivals, k);
      ValidParts();
      var step := TakeMessage(arrivals[k]);
      StepSucceeds(setup, tasks, books, before, used, arrivals, k, step);
      return Refusal(step), false;
    }

    /**
     * The receive loop takes every message unless one fails or time runs out; on a proper schedule that is
     * exactly when every arrival succeeds, and otherwise the first one that does not decides the outcome.
     */
    method Consume(ghost tasks: seq<seq<LeafTask>>, arrivals: seq<Arrival>)
        returns (reason: Option<Failure>, saturated: bool)
      requires Valid() && taken == [] && AllFixed(arrivals)
      modifies this, nullifiers
      ensures reason == None ==> Valid() && taken <= Messages(arrivals)
      ensures reason == None && !saturated ==> taken == Messages(arrivals)
      ensures saturated ==> reason == None && |taken| < |arrivals| && arrivals[|taken|].expired
      ensures Scheduled(tasks, arrivals) ==> (reason == None && !saturated <==> AllSucceed(setup, arrivals, |arrivals|))
      ensures Scheduled(tasks, arrivals) ==> (saturated <==> TimesOut(setup, arrivals))
      ensures Scheduled(tasks, arrivals) ==> forall f :: reason == Some(f) <==> FailsWith(setup, arrivals, f)
    {
      hide Valid;
      hide Succeeds;
      hide Scheduled;
      hide ArrivalVerdict;
      hide TimesOut;
      hide FailsWith;
      reason, saturated := None, false;
      for k := 0 to |arrivals|
        invariant reason == None && !saturated && Valid() && taken == Messages(arrivals[..k])
        invariant Scheduled(tasks, arrivals) ==> AllSucceed(setup, arrivals, k)
      {
        NextMessage(arrivals, k);
        SucceedsExactly(setup, arrivals, k);
        reason, saturated := TakeArrival(tasks, arrivals, k);
        if saturated || reason.Some? {
          if Scheduled(tasks, arrivals) { OneStop(setup, arrivals, k); }
          return;
        }
      }
      assert arrivals[..|arrivals|] == arrivals;
      if AllSucceed(setup, arrivals, |arrivals|) { NoStop(setup, arrivals); }
    }

    /**
     * The whole run.  Its status is complete exactly when nothing failed, time did not run out and the whole
     * schedule was taken; then nothing is pending, every total is the offered one, all lots are different and
     * the last anchored root is that of exactly their nullifiers.
     */
    method Run(ghost tasks: seq<seq<LeafTask>>, epochs: nat, offered: (nat, nat), arrivals: seq<Arrival>,
               producerOk: bool, expired: bool)
        returns (status: Status, reason: Option<Failure>, saturated: bool)
      requires Valid() && taken == [] && AllFixed(arrivals)
      requires Producer.NoneEmpty(tasks) && epochs == |tasks| && Messages(arrivals) <= Producer.Script(tasks)
      requires offered == (EventsIn(Producer.Script(tasks)), ShipmentsIn(Producer.Script(tasks)))
      modifies this, nullifiers
      ensures status == Complete <==> reason == None && !saturated && taken == Producer.Script(tasks)
      ensures status == Saturated <==> reason == None && saturated
      ensures Scheduled(tasks, arrivals) ==>
        (status == Saturated <==>
          producerOk && (TimesOut(setup, arrivals) || (expired && AllSucceed(setup, arrivals, |arrivals|))))
      ensures Scheduled(tasks, arrivals) ==>
        && (saturated <==> TimesOut(setup, arrivals) || expired)
        && forall f :: reason == Some(f) <==>
             FailsWith(setup, arrivals, f) || (f == ProducerFailed && !producerOk && NoneFails(setup, arrivals))
      ensures Scheduled(tasks, arrivals) ==>
        (status == Complete <==>
          producerOk && !expired && Messages(arrivals) == Producer.Script(tasks)
              && AllSucceed(setup, arrivals, |arrivals|))
      ensures status == Complete ==>
        && Valid() && leaves == [] && acknowledged == [] && pendingShipments == 0
        && (committedEvents, committedShipments) == offered && |samples| == epochs
        && SampleIds(samples) == ScheduledIds(tasks) && UnderPolicy(setup, leaves, samples)
      ensures status == Complete ==>
        && LotsDiffer(Producer.Script(tasks))
        && AnchoredRoot(samples, SparseNullifiers.SetRoot(setup.env.depth, {}))
           == SparseNullifiers.SetRoot(setup.env.depth, UsedBy(setup, Producer.Script(tasks)))
    {
      hide FailsWith;
      hide TimesOut;
      hide AllSucceed;
      hide Scheduled;
      hide UnderPolicy;
      hide Recorded;
      reason, saturated := Consume(tasks, arrivals);
      if reason == None && !producerOk { reason := Some(ProducerFailed); }
      saturated := saturated || expired;
      var complete := reason == None && !saturated && epochsCompleted == epochs
                      && committedEvents == offered.0 && committedShipments == offered.1;
      status := if complete then Complete else if reason == None && saturated then Saturated else Censored;
      if reason == None {
        CompleteExactly(Ledger(), SparseNullifiers.SetRoot(setup.env.depth, {}), CurrentRoot(), tasks);
        OneIndexEach(setup, taken);
      }
    }
  }

  /** A balanced ledger counts every epoch exactly when the whole schedule was taken, and then nothing is pending. */
  lemma {:induction false} CompleteExactly(b: Books, start: Digest, current: Digest, tasks: seq<seq<LeafTask>>)
    requires Balanced(b, start, current) && Producer.NoneEmpty(tasks) && b.taken <= Producer.Script(tasks)
    ensures b.epochsCompleted == |tasks| <==> b.taken == Producer.Script(tasks)
    ensures b.taken == Producer.Script(tasks) ==>
      && b.leaves == [] && b.acknowledged == [] && b.pendingShipments == 0 && |b.samples| == |tasks|
      && b.committedEvents == EventsIn(Producer.Script(tasks))
           && b.committedShipments == ShipmentsIn(Producer.Script(tasks))
      && SampleIds(b.samples) == ScheduledIds(tasks)
  {
    IdsOfScript(tasks);
    AllEndsMeansAll(tasks, b.taken);
    EndsOfScript(tasks);
    assert tasks == [] ==> b.taken == [];
  }

  /**
   * The messages are a beginning of a schedule whose epochs are nonempty, hold leaves of one epoch id
   * each and are countable.
   */
  ghost predicate Scheduled(tasks: seq<seq<LeafTask>>, arrivals: seq<Arrival>)
  {
    && Producer.NoneEmpty(tasks) && Messages(arrivals) <= Producer.Script(tasks)
    && forall e: nat :: e < |tasks| ==> OneEpoch(tasks[e]) && |tasks[e]| * 64 < U64_LIMIT
  }

  /** Why an arrival in time fails, given the leaves taken before it on a proper schedule. */
  ghost function ArrivalVerdict(setup: Setup, arrivals: seq<Arrival>, k: nat): Option<Failure>
    requires k < |arrivals| && Fixed(arrivals[k])
  {
    var arrival, used := arrivals[k], UsedBy(setup, Messages(arrivals[..k]));
    match arrival.message
    case LeafMessage(task) => LeafVerdict(setup, used, task, arrival.proved)
    case EpochEnd(_) =>
      if !arrival.proved then Some(AggregationFailed)
      else if arrival.receipt.None? then Some(AnchorRejected)
      else if arrival.receipt.value.newRoot != SparseNullifiers.SetRoot(setup.env.depth, used) then Some(RootDisagrees)
      else if !CompleteReceipt(arrival.receipt) then Some(ReceiptIncomplete)
      else None
  }

  /** Given the leaves taken before it, nothing the outside world does stops this arrival. */
  ghost predicate Succeeds(setup: Setup, arrivals: seq<Arrival>, k: nat)
    requires k < |arrivals| && Fixed(arrivals[k])
  {
    !arrivals[k].expired && ArrivalVerdict(setup, arrivals, k) == None
  }

  lemma {:induction false} SucceedsExactly(setup: Setup, arrivals: seq<Arrival>, k: nat)
    requires k < |arrivals| && Fixed(arrivals[k])
    ensures Succeeds(setup, arrivals, k) <==> !arrivals[k].expired && ArrivalVerdict(setup, arrivals, k) == None
  {
  }

  /** The first arrival that does not succeed. */
  ghost predicate StopsAt(setup: Setup, arrivals: seq<Arrival>, k: nat)
    requires k < |arrivals| && AllFixed(arrivals)
  {
    AllSucceed(setup, arrivals, k) && !Succeeds(setup, arrivals, k)
  }

  /** The first arrival that does not succeed comes after the deadline. */
  ghost predicate TimesOut(setup: Setup, arrivals: seq<Arrival>)
    requires AllFixed(arrivals)
  {
    exists k: nat :: k < |arrivals| && StopsAt(setup, arrivals, k) && arrivals[k].expired
  }

  /** The first arrival that does not succeed comes in time and fails for this reason. */
  ghost predicate FailsWith(setup: Setup, arrivals: seq<Arrival>, failure: Failure)
    requires AllFixed(arrivals)
  {
    exists k: nat :: k < |arrivals| && StopsAt(setup, arrivals, k) && !arrivals[k].expired
        && ArrivalVerdict(setup, arrivals, k) == Some(failure)
  }

  ghost predicate NoneFails(setup: Setup, arrivals: seq<Arrival>)
    requires AllFixed(arrivals)
  {
    forall f :: !FailsWith(setup, arrivals, f)
  }

  lemma {:induction false} OneStop(setup: Setup, arrivals: seq<Arrival>, k: nat)
    requires AllFixed(arrivals) && k < |arrivals| && AllSucceed(setup, arrivals, k) && !Succeeds(setup, arrivals, k)
    ensures TimesOut(setup, arrivals) <==> arrivals[k].expired
    ensures forall f :: FailsWith(setup, arrivals, f) <==>
        !arrivals[k].expired && ArrivalVerdict(setup, arrivals, k) == Some(f)
    ensures !AllSucceed(setup, arrivals, |arrivals|)
  {
    hide Succeeds;
    hide ArrivalVerdict;
    assert StopsAt(setup, arrivals, k);
    forall j: nat | j < |arrivals| && StopsAt(setup, arrivals, j)
      ensures j == k
    {
    }
  }

  lemma {:induction false} NoStop(setup: Setup, arrivals: seq<Arrival>)
    requires AllFixed(arrivals) && AllSucceed(setup, arrivals, |arrivals|)
    ensures !TimesOut(setup, arrivals) && forall f :: !FailsWith(setup, arrivals, f)
  {
  }

  ghost predicate AllSucceed(setup: Setup, arrivals: seq<Arrival>, n: nat)
    requires n <= |arrivals| && AllFixed(arrivals)
  {
    forall k: nat :: k < n ==> Succeeds(setup, arrivals, k)
  }

  /** On a proper schedule the leaves pending at an epoch's end always aggregate. */
  lemma {:induction false} EpochAggregates(setup: Setup, tasks: seq<seq<LeafTask>>, b: Books,
                                           inputs: seq<Policy.PolicyInput>, used: set<nat>, arrivals: seq<Arrival>,
                                           k: nat)
    requires Policy.ValidEnv(setup.env) && Consistent(setup, b, inputs, used) && Scheduled(tasks, arrivals)
    requires k < |arrivals| && arrivals[k].message.EpochEnd? && b.taken == Messages(arrivals[..k])
    ensures b.leaves != [] && Reduce(setup.keys, Archive.LeafNodes(b.leaves)).Ok?
  {
    hide Policy.Evaluate;
    NextMessage(arrivals, k);
    var e := EpochIsPending(tasks, b.taken, arrivals[k].message.epochId);
    PendingReduces(setup, setup.keys, b.taken, inputs, b.leaves);
  }

  lemma {:induction false} StepSucceeds(setup: Setup, tasks: seq<seq<LeafTask>>, b: Books,
                                        inputs: seq<Policy.PolicyInput>, used: set<nat>, arrivals: seq<Arrival>,
                                        k: nat, step: Result<(), Failure>)
    requires Policy.ValidEnv(setup.env) && Consistent(setup, b, inputs, used)
    requires k < |arrivals| && Fixed(arrivals[k]) && b.taken == Messages(arrivals[..k])
    requires arrivals[k].message.LeafMessage? ==>
      Refusal(step) == LeafVerdict(setup, UsedBy(setup, b.taken), arrivals[k].message.leaf, arrivals[k].proved)
    requires var a, root := arrivals[k], SparseNullifiers.SetRoot(setup.env.depth, used);
      a.message.EpochEnd? ==>
          Refusal(step) == EpochRefusal(EpochVerdict(setup, b.leaves, root, a.proved, a.receipt), a.receipt)
    ensures Scheduled(tasks, arrivals) ==> Refusal(step) == ArrivalVerdict(setup, arrivals, k)
  {
    hide Policy.Evaluate;
    hide LeafVerdict;
    hide Scheduled;
    hide Reduce;
    hide EpochVerdict;
    hide EpochRefusal;
    hide Balanced;
    hide Recorded;
    if Scheduled(tasks, arrivals) && arrivals[k].message.EpochEnd? {
      EpochAggregates(setup, tasks, b, inputs, used, arrivals, k);
      EndRefusal(setup, b.leaves, SparseNullifiers.SetRoot(setup.env.depth, used), arrivals[k].proved,
                 arrivals[k].receipt);
    }
  }

  /** Once its leaves reduce, an epoch's end can fail only from outside. */
  lemma {:induction false} EndRefusal(setup: Setup, batch: seq<Words>, root: Digest, proved: bool,
                                      receipt: Option<Receipt>)
    requires batch != [] && Reduce(setup.keys, Archive.LeafNodes(batch)).Ok?
    ensures EpochRefusal(EpochVerdict(setup, batch, root, proved, receipt), receipt) ==
      if !proved then Some(AggregationFailed)
      else if receipt.None? then Some(AnchorRejected)
      else if receipt.value.newRoot != root then Some(RootDisagrees)
      else if !CompleteReceipt(receipt) then Some(ReceiptIncomplete)
      else None
  {
    hide Reduce;
  }

  function Messages(arrivals: seq<Arrival>): seq<Message>
  {
    seq(|arrivals|, k requires 0 <= k < |arrivals| => arrivals[k].message)
  }

  lemma {:induction false} NextMessage(arrivals: seq<Arrival>, k: nat)
    requires k < |arrivals|
    ensures |Messages(arrivals[..k])| == k && Messages(arrivals[..k]) <= Messages(arrivals) && arrivals[k] in arrivals
    ensures Messages(arrivals[..k + 1]) == Messages(arrivals[..k]) + [arrivals[k].message]
  {
  }

  /** The offered totals of one epoch's leaves. */
  method OfferedInEpoch(epoch: seq<LeafTask>) returns (events: nat, shipments: nat)
    ensures events == EventsIn(Producer.LeafMessages(epoch)) && shipments == ShipmentsIn(Producer.LeafMessages(epoch))
  {
    events, shipments := 0, 0;
    for k := 0 to |epoch|
      invariant events == EventsIn(Producer.LeafMessages(epoch[..k]))
      invariant shipments == ShipmentsIn(Producer.LeafMessages(epoch[..k]))
    {
      assert Producer.LeafMessages(epoch[..k + 1]) == Producer.LeafMessages(epoch[..k]) + [LeafMessage(epoch[k])];
      TakenSnoc(Producer.LeafMessages(epoch[..k]), LeafMessage(epoch[k]));
      events := events + |epoch[k].events|;
      shipments := shipments + if epoch[k].shipmentEnd then 1 else 0;
    }
    assert epoch[..|epoch|] == epoch;
  }

  /** The offered totals are those of the schedule. */
  method Offered(tasks: seq<seq<LeafTask>>) returns (offered: (nat, nat))
    requires Producer.NoneEmpty(tasks)
    ensures offered == (EventsIn(Producer.Script(tasks)), ShipmentsIn(Producer.Script(tasks)))
  {
    var events: nat, shipments: nat := 0, 0;
    for e := 0 to |tasks|
      invariant (events, shipments) == (EventsIn(Producer.Script(tasks[..e])), ShipmentsIn(Producer.Script(tasks[..e])))
    {
      ghost var script, more := Producer.Script(tasks[..e]), Producer.LeafMessages(tasks[e]);
      assert tasks[..e + 1][..e] == tasks[..e];
      var inEpoch, ends := OfferedInEpoch(tasks[e]);
      CountsConcat(script, more);
      TakenSnoc(script + more, EpochEnd(tasks[e][0].epochId));
      events, shipments := events + inEpoch, shipments + ends;
    }
    assert tasks[..|tasks|] == tasks;
    return (events, shipments);
  }

  lemma {:induction false} LeafWords(v: Policy.PolicyPublicValues)
    ensures var leaf := Disclosure.LeafAbi(v);
      && leaf[1] == v.oldNullifierRoot && leaf[2] == v.newNullifierRoot && leaf[9] == Raw(v.eventCount)
      && leaf[4] == v.certificateRoot && leaf[5] == v.polygonCommitment
  {
  }

  /** The leaf evaluated against the map's own root and path publishes the root the map has after the insertion. */
  lemma {:induction false} AcceptedLeafMoves(env: Policy.Env, input: Policy.PolicyInput, used: set<nat>)
    requires Policy.ValidEnv(env) && Policy.WellFormed(env, input) && Policy.Evaluate(env, input).Ok?
    requires input.oldNullifierRoot == SparseNullifiers.SetRoot(env.depth, used)
    ensures var v, i := Policy.Evaluate(env, input).value,
        BigEndian(env.bytesOf(Policy.Nullifier(input.lotId, input.nullifierKey)));
      && i !in used && v.newNullifierRoot == SparseNullifiers.SetRoot(env.depth, used + {i})
      && v.oldNullifierRoot == input.oldNullifierRoot && v.eventCount == |input.events|
      && v.certificateRoot == input.certificateRoot
      && v.polygonCommitment == PolygonCommitment(input.polygonNonce, input.polygon)
  {
    Policy.EvaluateAcceptsExactly(env, input);
    NoLotTwice.AcceptedLeafAddsUnused(env, input);
  }
}
