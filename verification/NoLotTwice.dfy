/**
 * The rollup's safety over whole runs: along one nullifier-root chain, with credentials from one
 * issuer, no lot is ever accepted twice.
 */
module NoLotTwice {
  import opened Primitives
  import opened Digests
  import opened PolicyTypes
  import opened Merkle
  import opened Policy
  import opened Registry
  import opened SparseNullifiers

  // ----- issuer histories

  /** One thing that happens to the issuer: a snapshot request, or a restart from catalog bytes. */
  datatype IssuerStep =
    | Snapshot(credentials: seq<Credential>, polygon: seq<PointE6>)
    | Restart(bytes: Bytes)

  ghost function StepCatalog(catalog: Catalog, step: IssuerStep): Catalog
  {
    match step
    case Snapshot(credentials, polygon) =>
      var issued := Issue(catalog, credentials, polygon);
      if issued.Ok? then issued.value.0 else catalog
    case Restart(bytes) =>
      var restored := DecodeCatalogSpec(bytes);
      if restored.Ok? then restored.value else catalog
  }

  /** The catalog before step `n`, starting from a new issuer. */
  ghost function CatalogAt(steps: seq<IssuerStep>, n: nat): Catalog
    requires n <= |steps|
  {
    if n == 0 then map[] else StepCatalog(CatalogAt(steps, n - 1), steps[n - 1])
  }

  /** Some successful snapshot of the history has this root. */
  ghost predicate Issued(env: Env, steps: seq<IssuerStep>, root: Digest)
  {
    exists n: nat :: n < |steps| && IssuedAt(env, steps, n, root)
  }

  ghost predicate IssuedAt(env: Env, steps: seq<IssuerStep>, n: nat, root: Digest)
    requires n < |steps|
  {
    && steps[n].Snapshot?
    && var issued := Issue(CatalogAt(steps, n), steps[n].credentials, steps[n].polygon);
       issued.Ok? && root == SnapshotRoot(env, issued.value.1)
  }

  /** Some successful snapshot of the history certified this credential, for the role a leaf asks for. */
  ghost predicate Certified(steps: seq<IssuerStep>, c: Credential)
  {
    c.event.role == REQUIRED_ROLE && exists n: nat :: n < |steps| && CertifiedAt(steps, n, c)
  }

  ghost predicate CertifiedAt(steps: seq<IssuerStep>, n: nat, c: Credential)
    requires n < |steps|
  {
    && steps[n].Snapshot?
    && var issued := Issue(CatalogAt(steps, n), steps[n].credentials, steps[n].polygon);
       issued.Ok? && c.index in issued.value.1 && issued.value.1[c.index] == c
  }

  ghost predicate OfOneLot(steps: seq<IssuerStep>, c: Credential, d: Credential)
  {
    Certified(steps, c) && Certified(steps, d) && c.event.lotId == d.event.lotId
  }

  /** No lot was ever certified under two key commitments. */
  ghost predicate OneKeyPerLot(steps: seq<IssuerStep>)
  {
    forall c, d :: OfOneLot(steps, c, d) ==> c.keyCommitment == d.keyCommitment
  }

  /** Whatever bytes the restarts read, the catalog never exceeds 65,536 lots. */
  lemma {:induction false} CatalogStaysBounded(steps: seq<IssuerStep>, n: nat)
    requires n <= |steps|
    ensures |CatalogAt(steps, n)| <= 65_536
  {
    if n != 0 {
      CatalogStaysBounded(steps, n - 1);
      if steps[n - 1].Restart? && DecodeCatalogSpec(steps[n - 1].bytes).Ok? {
        RestoredIsBounded(steps[n - 1].bytes);
      }
    }
  }

  // ----- when ownership persists

  /** A restart that fails to read, or reads a catalog keeping every current owner. */
  ghost predicate RestartKeepsOwners(steps: seq<IssuerStep>, k: nat)
    requires k < |steps|
  {
    steps[k].Restart? && DecodeCatalogSpec(steps[k].bytes).Ok? ==>
      Extends(CatalogAt(steps, k), DecodeCatalogSpec(steps[k].bytes).value)
  }

  ghost predicate OwnershipPersists(steps: seq<IssuerStep>)
  {
    forall m: nat, n: nat :: m <= n <= |steps| ==> Extends(CatalogAt(steps, m), CatalogAt(steps, n))
  }

  lemma {:induction false} StepExtendsExactly(steps: seq<IssuerStep>, k: nat)
    requires k < |steps|
    ensures Extends(CatalogAt(steps, k), CatalogAt(steps, k + 1)) <==> RestartKeepsOwners(steps, k)
  {
    if steps[k].Snapshot? {
      AdmitKeepsOwners(CatalogAt(steps, k), map[], steps[k].credentials);
    }
  }

  lemma {:induction false} ExtendsItself(a: Catalog)
    ensures Extends(a, a)
  {
  }

  lemma {:induction false} ExtendsOnward(a: Catalog, b: Catalog, c: Catalog)
    requires Extends(a, b) && Extends(b, c)
    ensures Extends(a, c)
  {
  }

  lemma {:induction false} PersistsBetween(steps: seq<IssuerStep>, m: nat, n: nat)
    requires m <= n <= |steps| && forall k: nat :: m <= k < n ==> RestartKeepsOwners(steps, k)
    ensures Extends(CatalogAt(steps, m), CatalogAt(steps, n))
    decreases n - m
  {
    hide StepCatalog;
    hide Extends;
    hide RestartKeepsOwners;
    if m == n {
      ExtendsItself(CatalogAt(steps, m));
    } else {
      PersistsBetween(steps, m, n - 1);
      StepExtendsExactly(steps, n - 1);
      ExtendsOnward(CatalogAt(steps, m), CatalogAt(steps, n - 1), CatalogAt(steps, n));
    }
  }

  /** With arbitrary restarts, ownership persists exactly when no readable restart drops or changes an owner. */
  lemma {:induction false} OwnershipPersistsExactly(steps: seq<IssuerStep>)
    ensures OwnershipPersists(steps) <==> forall k: nat :: k < |steps| ==> RestartKeepsOwners(steps, k)
  {
    if forall k: nat :: k < |steps| ==> RestartKeepsOwners(steps, k) {
      forall m: nat, n: nat | m <= n <= |steps|
        ensures Extends(CatalogAt(steps, m), CatalogAt(steps, n))
      {
        PersistsBetween(steps, m, n);
      }
    } else {
      var k: nat :| k < |steps| && !RestartKeepsOwners(steps, k);
      StepExtendsExactly(steps, k);
    }
  }

  // ----- restarts from saved catalogs

  /** Step `k` restores what was saved before step `m`. */
  ghost predicate Restores(steps: seq<IssuerStep>, k: nat, m: nat)
    requires m <= k < |steps|
  {
    steps[k] == Restart(Save(CatalogAt(steps, m)))
  }

  /** The bytes a restart reads were saved from the catalog it replaces. */
  ghost predicate RestartsFromLatest(steps: seq<IssuerStep>, k: nat)
    requires k < |steps|
  {
    steps[k].Restart? ==> Restores(steps, k, k)
  }

  ghost predicate RestoresEarlier(steps: seq<IssuerStep>, k: nat)
    requires k < |steps|
  {
    steps[k].Restart? ==> exists m: nat :: m <= k && Restores(steps, k, m)
  }

  lemma {:induction false} RestoredCatalog(steps: seq<IssuerStep>, k: nat, m: nat)
    requires m <= k < |steps| && Restores(steps, k, m)
    ensures DecodeCatalogSpec(steps[k].bytes) == Ok(CatalogAt(steps, m))
        && CatalogAt(steps, k + 1) == CatalogAt(steps, m)
  {
    hide DecodeCatalogSpec;
    hide Save;
    CatalogStaysBounded(steps, m);
    CatalogReadsBack(CatalogAt(steps, m));
  }

  /** Over every history of snapshots and restarts from the latest save, ownership is write-once. */
  lemma {:induction false} OwnershipIsWriteOnce(steps: seq<IssuerStep>, m: nat, n: nat)
    requires m <= n <= |steps| && forall k: nat :: k < |steps| ==> RestartsFromLatest(steps, k)
    ensures Extends(CatalogAt(steps, m), CatalogAt(steps, n))
  {
    forall k: nat | k < |steps|
      ensures RestartKeepsOwners(steps, k)
    {
      assert RestartsFromLatest(steps, k);
      if steps[k].Restart? { RestoredCatalog(steps, k, k); }
    }
    PersistsBetween(steps, m, n);
  }

  /** No lot was admitted between the save that step `k` restores and step `k`. */
  ghost predicate NothingAdmittedSince(steps: seq<IssuerStep>, k: nat)
    requires k < |steps|
  {
    forall m: nat :: m <= k && Restores(steps, k, m) ==> |CatalogAt(steps, m)| == |CatalogAt(steps, k)|
  }

  lemma {:induction false} SameSizeExtension(a: Catalog, b: Catalog)
    requires Extends(a, b) && |a| == |b|
    ensures a == b
  {
    assert a.Keys <= b.Keys;
    SubsetOfSameSize(a.Keys, b.Keys);
  }

  lemma {:induction false} SubsetOfSameSize(a: set<U64>, b: set<U64>)
    requires a <= b && |a| == |b|
    ensures a == b
  {
    assert b == a + (b - a) && |b| == |a| + |b - a|;
  }

  lemma {:induction false} SafeUpTo(steps: seq<IssuerStep>, n: nat)
    requires n <= |steps| && forall k: nat :: k < |steps| ==>
        RestoresEarlier(steps, k) && NothingAdmittedSince(steps, k)
    ensures forall k: nat :: k < n ==> RestartKeepsOwners(steps, k)
  {
    hide RestartKeepsOwners;
    if n != 0 {
      var k := n - 1;
      SafeUpTo(steps, k);
      assert RestoresEarlier(steps, k) && NothingAdmittedSince(steps, k);
      if steps[k].Restart? { SafeRestart(steps, k); } else { SnapshotKeepsOwners(steps, k); }
    }
  }

  lemma {:induction false} SnapshotKeepsOwners(steps: seq<IssuerStep>, k: nat)
    requires k < |steps| && steps[k].Snapshot?
    ensures RestartKeepsOwners(steps, k)
  {
  }

  lemma {:induction false} SafeRestart(steps: seq<IssuerStep>, k: nat)
    requires k < |steps| && steps[k].Restart? && RestoresEarlier(steps, k) && NothingAdmittedSince(steps, k)
    requires forall j: nat :: j < k ==> RestartKeepsOwners(steps, j)
    ensures RestartKeepsOwners(steps, k)
  {
    var m: nat :| m <= k && Restores(steps, k, m);
    PersistsBetween(steps, m, k);
    SameSizeExtension(CatalogAt(steps, m), CatalogAt(steps, k));
    RestoredCatalog(steps, k, m);
  }

  /**
   * When every restart restores some earlier save, ownership persists exactly when no lot was admitted
   * between any restored save and its restart.
   */
  lemma {:induction false} OlderSaveIsSafeExactly(steps: seq<IssuerStep>)
    requires forall k: nat :: k < |steps| ==> RestoresEarlier(steps, k)
    ensures OwnershipPersists(steps) <==> forall k: nat :: k < |steps| ==> NothingAdmittedSince(steps, k)
  {
    if forall k: nat :: k < |steps| ==> NothingAdmittedSince(steps, k) {
      SafeUpTo(steps, |steps|);
      OwnershipPersistsExactly(steps);
    }
    if OwnershipPersists(steps) {
      forall k: nat, m: nat | m <= k < |steps| && Restores(steps, k, m)
        ensures |CatalogAt(steps, m)| == |CatalogAt(steps, k)|
      {
        RestoredCatalog(steps, k, m);
        assert Extends(CatalogAt(steps, m), CatalogAt(steps, k))
            && Extends(CatalogAt(steps, k), CatalogAt(steps, k + 1));
        assert CatalogAt(steps, m) == CatalogAt(steps, k);
      }
    }
  }

  // ----- runs of accepted leaves

  /** A leaf's effect on the nullifier tree. */
  datatype RootStep = RootStep(index: nat, oldRoot: Digest, newRoot: Digest)

  /** From the root of any used set the step lands on the root of that set with a new index added. */
  ghost predicate AddsUnused(depth: nat, step: RootStep)
  {
    forall used: set<nat> :: step.oldRoot == SetRoot(depth, used) ==>
      step.index !in used && step.newRoot == SetRoot(depth, used + {step.index})
  }

  ghost predicate Chained(depth: nat, chain: seq<RootStep>)
  {
    && (|chain| > 0 ==> chain[0].oldRoot == SetRoot(depth, {}))
    && forall k: nat :: 0 < k < |chain| ==> chain[k].oldRoot == chain[k - 1].newRoot
  }

  function Used(chain: seq<RootStep>): set<nat>
  {
    if chain == [] then {} else Used(chain[..|chain| - 1]) + {chain[|chain| - 1].index}
  }

  lemma {:induction false} StepFrom(depth: nat, step: RootStep, used: set<nat>)
    requires AddsUnused(depth, step) && step.oldRoot == SetRoot(depth, used)
    ensures step.index !in used && step.newRoot == SetRoot(depth, used + {step.index})
  {
  }

  /** Along any chain of such steps the last root is the root of exactly the indices used, all different. */
  lemma {:induction false} ChainTracksSet(depth: nat, chain: seq<RootStep>)
    requires Chained(depth, chain) && forall s :: s in chain ==> AddsUnused(depth, s)
    ensures |Used(chain)| == |chain|
    ensures chain != [] ==> chain[|chain| - 1].newRoot == SetRoot(depth, Used(chain))
    ensures chain != [] ==> chain[|chain| - 1].index !in Used(chain[..|chain| - 1])
  {
    hide AddsUnused;
    hide SetRoot;
    if chain != [] {
      var n := |chain| - 1;
      var before, last := chain[..n], chain[n];
      assert forall s :: s in before ==> s in chain;
      ChainTracksSet(depth, before);
      assert n > 0 ==> before[n - 1] == chain[n - 1];
      StepFrom(depth, last, Used(before));
    }
  }

  /** The root step an accepted leaf publishes. */
  ghost function StepOf(env: Env, input: PolicyInput): RootStep
    requires WellFormed(env, input) && Evaluate(env, input).Ok?
  {
    var values := Evaluate(env, input).value;
    RootStep(NullifierIndex(env, input.lotId, input.nullifierKey), values.oldNullifierRoot, values.newNullifierRoot)
  }

  /** Acceptance proves the nullifier unused and adds exactly it. */
  lemma {:induction false} AcceptedLeafAddsUnused(env: Env, input: PolicyInput)
    requires ValidEnv(env) && WellFormed(env, input) && Evaluate(env, input).Ok?
    ensures AddsUnused(env.depth, StepOf(env, input))
  {
    EvaluateAcceptsExactly(env, input);
    var digest := Nullifier(input.lotId, input.nullifierKey);
    assert 8 * |env.bytesOf(digest)| == env.depth;
    BigEndianBound(env.bytesOf(digest));
    forall used: set<nat> | input.oldNullifierRoot == SetRoot(env.depth, used)
      ensures BigEndian(env.bytesOf(digest)) !in used
      ensures NewRoot(env, input) == SetRoot(env.depth, used + {BigEndian(env.bytesOf(digest))})
    {
      EmptyPathAdvancesRoot(env.depth, used, BigEndian(env.bytesOf(digest)), input.nullifierPath);
    }
  }

  /** The published nullifier is unused before an accepted leaf, and the published root adds exactly it. */
  lemma {:induction false} PublishedNullifierIsAdded(env: Env, input: PolicyInput, used: set<nat>)
    requires ValidEnv(env) && WellFormed(env, input) && Evaluate(env, input).Ok?
    requires input.oldNullifierRoot == SetRoot(env.depth, used)
    ensures var v := Evaluate(env, input).value;
      && BigEndian(env.bytesOf(v.nullifier)) !in used
      && v.newNullifierRoot == SetRoot(env.depth, used + {BigEndian(env.bytesOf(v.nullifier))})
  {
    EvaluateAcceptsExactly(env, input);
    AcceptedLeafAddsUnused(env, input);
  }

  ghost predicate AllAccepted(env: Env, run: seq<PolicyInput>)
  {
    forall k: nat :: k < |run| ==> WellFormed(env, run[k]) && Evaluate(env, run[k]).Ok?
  }

  ghost function ChainOf(env: Env, run: seq<PolicyInput>): seq<RootStep>
    requires AllAccepted(env, run)
  {
    seq(|run|, k requires 0 <= k < |run| => StepOf(env, run[k]))
  }

  lemma {:induction false} ChainAddsUnused(env: Env, run: seq<PolicyInput>)
    requires ValidEnv(env) && AllAccepted(env, run)
    ensures forall s :: s in ChainOf(env, run) ==> AddsUnused(env.depth, s)
  {
    var chain := ChainOf(env, run);
    forall k: nat | k < |chain|
      ensures AddsUnused(env.depth, chain[k])
    {
      AcceptedLeafAddsUnused(env, run[k]);
    }
  }

  /** Accepted leaves, each starting from the root the previous one published, the first from the default root. */
  ghost predicate ChainedRun(env: Env, run: seq<PolicyInput>)
  {
    AllAccepted(env, run) && Chained(env.depth, ChainOf(env, run))
  }

  /** After `n` chained accepted leaves the root is the full-tree root of their `n` distinct nullifier indices. */
  lemma {:induction false} RunTracksSet(env: Env, run: seq<PolicyInput>)
    requires ValidEnv(env) && ChainedRun(env, run) && run != []
    ensures |Used(ChainOf(env, run))| == |run|
    ensures Evaluate(env, run[|run| - 1]).value.newNullifierRoot == SetRoot(env.depth, Used(ChainOf(env, run)))
  {
    var chain := ChainOf(env, run);
    ChainAddsUnused(env, run);
    ChainTracksSet(env.depth, chain);
  }

  lemma {:induction false} UsedContains(chain: seq<RootStep>, i: nat)
    requires i < |chain|
    ensures chain[i].index in Used(chain)
  {
    if i < |chain| - 1 { UsedContains(chain[..|chain| - 1], i); }
  }

  /** Two positions of a chain never use the same index. */
  lemma {:induction false} ChainIndicesDiffer(depth: nat, chain: seq<RootStep>, i: nat, j: nat)
    requires Chained(depth, chain) && forall s :: s in chain ==> AddsUnused(depth, s)
    requires i < j < |chain|
    ensures chain[i].index != chain[j].index
  {
    var upto := chain[..j + 1];
    ChainTracksSet(depth, upto);
    assert upto[..j] == chain[..j];
    UsedContains(chain[..j], i);
  }

  /** An input's first event is certified by a slot of the snapshot whose root the input names. */
  lemma {:induction false} AttestedLeafIsInSlots(env: Env, input: PolicyInput, slots: Slots) returns (slot: U16)
    requires ValidEnv(env) && WellFormed(env, input) && Attested(env, input)
    requires input.certificateRoot == SnapshotRoot(env, slots)
    ensures slot in slots && slots[slot].event.lotId == input.lotId && slots[slot].event.role == REQUIRED_ROLE
    ensures env.wordOf(slots[slot].ownerIdentity) == input.ownerIdentity
    ensures env.wordOf(slots[slot].keyCommitment) == KeyCommitment(input.nullifierKey)
  {
    assert EventAccepted(env, input, 0);
    var w := input.events[0];
    assert w in input.events;
    slot := w.credentialIndex;
    var event := DecodeEvent(env, w.eventBytes).value;
    var leaf := CertificateLeafOf(slot, event, input.ownerIdentity, KeyCommitment(input.nullifierKey));
    SlotIsInTree(env, slot);
    OpeningIsExact(CertificateTree, SlotLeaves(env, slots), 0, slot, leaf, w.certificatePath);
    SlotMatches(env, slots, slot, event, input.ownerIdentity, KeyCommitment(input.nullifierKey));
  }

  /** An accepted leaf's lot is owned, in the issuer's catalog, under the leaf's own key commitment. */
  lemma {:induction false} CredentialBindsOwnership(env: Env, input: PolicyInput, slots: Slots, catalog: Catalog)
    requires ValidEnv(env) && WellFormed(env, input) && Evaluate(env, input).Ok?
    requires input.certificateRoot == SnapshotRoot(env, slots) && SlotsOwned(catalog, slots)
    ensures input.lotId in catalog && env.wordOf(catalog[input.lotId].owner) == input.ownerIdentity
    ensures env.wordOf(catalog[input.lotId].keyCommitment) == KeyCommitment(input.nullifierKey)
  {
    hide Evaluate;
    EvaluateAcceptsExactly(env, input);
    var slot := AttestedLeafIsInSlots(env, input, slots);
  }

  lemma {:induction false} SlotIsInTree(env: Env, slot: U16)
    requires ValidEnv(env)
    ensures Shift(slot, env.certificateDepth) == 0
  {
    ShiftBound(slot, env.certificateDepth, 0);
    assert Pow2(0) == 1;
  }

  // ----- one key for each lot

  ghost predicate AllIssued(env: Env, steps: seq<IssuerStep>, run: seq<PolicyInput>)
  {
    forall k: nat :: k < |run| ==> Issued(env, steps, run[k].certificateRoot)
  }

  predicate LotsDiffer(run: seq<PolicyInput>)
  {
    forall i: nat, j: nat :: i < j < |run| ==> run[i].lotId != run[j].lotId
  }

  /** The credential behind an attested input. */
  ghost predicate Vouches(env: Env, c: Credential, input: PolicyInput)
  {
    c.event.lotId == input.lotId && env.wordOf(c.keyCommitment) == KeyCommitment(input.nullifierKey)
  }

  lemma {:induction false} AttestedLeafIsCertified(env: Env, steps: seq<IssuerStep>, input: PolicyInput)
      returns (c: Credential)
    requires ValidEnv(env) && WellFormed(env, input) && Attested(env, input)
    requires Issued(env, steps, input.certificateRoot)
    ensures Certified(steps, c) && Vouches(env, c, input)
  {
    var n: nat :| n < |steps| && IssuedAt(env, steps, n, input.certificateRoot);
    var issued := Issue(CatalogAt(steps, n), steps[n].credentials, steps[n].polygon);
    AdmitKeepsOwners(CatalogAt(steps, n), map[], steps[n].credentials);
    var slot := AttestedLeafIsInSlots(env, input, issued.value.1);
    c := issued.value.1[slot];
    assert CertifiedAt(steps, n, c);
  }

  /** Two leaves along one chain never carry the same lot and key. */
  lemma {:induction false} LotAndKeyDiffer(env: Env, run: seq<PolicyInput>, i: nat, j: nat)
    requires ValidEnv(env) && ChainedRun(env, run) && i < j < |run| && run[i].lotId == run[j].lotId
    ensures NullifierIndex(env, run[i].lotId, run[i].nullifierKey)
        != NullifierIndex(env, run[j].lotId, run[j].nullifierKey)
  {
    var chain := ChainOf(env, run);
    ChainAddsUnused(env, run);
    ChainIndicesDiffer(env.depth, chain, i, j);
    assert chain[i] == StepOf(env, run[i]) && chain[j] == StepOf(env, run[j]);
  }

  /** All accepted lots along the chain are different, for every history that gives each lot one key. */
  lemma {:induction false} DistinctLots(env: Env, steps: seq<IssuerStep>, run: seq<PolicyInput>)
    requires ValidEnv(env) && ChainedRun(env, run) && AllIssued(env, steps, run) && OneKeyPerLot(steps)
    ensures LotsDiffer(run)
  {
    forall i: nat, j: nat | i < j < |run|
      ensures run[i].lotId != run[j].lotId
    {
      if run[i].lotId == run[j].lotId {
        EvaluateAcceptsExactly(env, run[i]);
        EvaluateAcceptsExactly(env, run[j]);
        var c := AttestedLeafIsCertified(env, steps, run[i]);
        var d := AttestedLeafIsCertified(env, steps, run[j]);
        assert OfOneLot(steps, c, d);
        LotAndKeyDiffer(env, run, i, j);
      }
    }
  }

  /** Every certified credential is in the catalog of any later moment, while ownership persists. */
  lemma {:induction false} CertifiedIsOwned(steps: seq<IssuerStep>, c: Credential)
    requires OwnershipPersists(steps) && Certified(steps, c)
    ensures var catalog := CatalogAt(steps, |steps|);
      c.event.lotId in catalog && catalog[c.event.lotId] == OwnershipOf(c)
  {
    var n: nat :| n < |steps| && CertifiedAt(steps, n, c);
    AdmitKeepsOwners(CatalogAt(steps, n), map[], steps[n].credentials);
    assert CatalogAt(steps, n + 1) == Issue(CatalogAt(steps, n), steps[n].credentials, steps[n].polygon).value.0;
    assert Extends(CatalogAt(steps, n + 1), CatalogAt(steps, |steps|));
  }

  /** Ownership that persists gives each lot one key. */
  lemma {:induction false} PersistenceGivesOneKey(steps: seq<IssuerStep>)
    requires OwnershipPersists(steps)
    ensures OneKeyPerLot(steps)
  {
    forall c, d | OfOneLot(steps, c, d)
      ensures c.keyCommitment == d.keyCommitment
    {
      CertifiedIsOwned(steps, c);
      CertifiedIsOwned(steps, d);
    }
  }

  /** No lot is accepted twice: any chained run over any issuer history with restarts from the latest save. */
  lemma {:induction false} NoLotAcceptedTwice(env: Env, steps: seq<IssuerStep>, run: seq<PolicyInput>)
    requires ValidEnv(env) && ChainedRun(env, run) && AllIssued(env, steps, run)
    requires forall k: nat :: k < |steps| ==> RestartsFromLatest(steps, k)
    ensures LotsDiffer(run)
  {
    forall m: nat, n: nat | m <= n <= |steps|
      ensures Extends(CatalogAt(steps, m), CatalogAt(steps, n))
    {
      OwnershipIsWriteOnce(steps, m, n);
    }
    PersistenceGivesOneKey(steps);
    DistinctLots(env, steps, run);
  }
}
