/** The credential issuer: write-once lot ownership, atomic snapshots and the persisted catalog. */
module Registry {
  import opened Primitives
  import opened Sequences
  import opened Digests
  import opened PolicyTypes
  import opened Merkle
  import opened Policy
  import Geofence

  const SLOTS: nat := 0x1_0000
  const ROW_BYTES: nat := 72

  /** The issuer stores and compares an owner and a key commitment as 32 bytes. */
  datatype Credential = Credential(index: U16, event: EpcisEvent, ownerIdentity: Word, keyCommitment: Word)
  datatype Ownership = Ownership(owner: Word, keyCommitment: Word)
  type Catalog = map<U64, Ownership>
  type Slots = map<nat, Credential>

  function OwnershipOf(c: Credential): Ownership
  {
    Ownership(c.ownerIdentity, c.keyCommitment)
  }

  function SlotLeaves(env: Env, slots: Slots): nat -> Digest
  {
    (i: nat) =>
      if i in slots
      then CertificateLeafOf(i, slots[i].event, env.wordOf(slots[i].ownerIdentity), env.wordOf(slots[i].keyCommitment))
      else CertificatePadding(i)
  }

  /** No two positions of the certificate tree hold the same leaf, certified or padding. */
  lemma {:induction false} CertificateLeavesDiffer(env: Env, slots: Slots, i: nat, j: nat)
    requires i != j
    ensures SlotLeaves(env, slots)(i) != SlotLeaves(env, slots)(j)
  {
    LeafPosition(env, slots, i);
    LeafPosition(env, slots, j);
  }

  lemma {:induction false} LeafPosition(env: Env, slots: Slots, i: nat)
    ensures var leaf := SlotLeaves(env, slots)(i);
      if i in slots then leaf.CertificateLeaf? && leaf.slot == i else leaf == CertificatePadding(i)
  {
    if i in slots {
      var c := slots[i];
      var owner, key := env.wordOf(c.ownerIdentity), env.wordOf(c.keyCommitment);
      CertificateNames(i, c.event, owner, key);
      assert SlotLeaves(env, slots)(i) == CertificateLeafOf(i, c.event, owner, key);
    }
  }

  /** Admits credentials one by one into proposed ownership and slots; any conflict rejects all of them. */
  function Admit(catalog: Catalog, slots: Slots, credentials: seq<Credential>): Result<(Catalog, Slots), PolicyError>
    decreases |credentials|
  {
    if credentials == [] then Ok((catalog, slots))
    else
      var c := credentials[0];
      if !Geofence.ValidPoint(c.event.point) then Err(InvalidCoordinate)
      else if (c.event.lotId in catalog && catalog[c.event.lotId] != OwnershipOf(c))
          || c.index in slots then Err(C2CredentialRoot)
      else Admit(catalog[c.event.lotId := OwnershipOf(c)], slots[c.index := c], credentials[1..])
  }

  ghost function Issue(catalog: Catalog, credentials: seq<Credential>,
                       polygon: seq<PointE6>): Result<(Catalog, Slots), PolicyError>
  {
    if |credentials| > SLOTS then Err(InvalidInput)
    else if Geofence.PolygonVerdict(polygon).Err? then Err(Geofence.PolygonVerdict(polygon).error)
    else
      var admitted := Admit(catalog, map[], credentials);
      if admitted.Ok? && |admitted.value.0| > SLOTS then Err(InvalidInput) else admitted
  }

  ghost predicate Extends(before: Catalog, after: Catalog)
  {
    forall lot :: lot in before ==> lot in after && after[lot] == before[lot]
  }

  ghost predicate SlotsOwned(catalog: Catalog, slots: Slots)
  {
    forall i :: i in slots ==>
      && slots[i].index == i
      && slots[i].event.lotId in catalog && catalog[slots[i].event.lotId] == OwnershipOf(slots[i])
  }

  /** Admission never rewrites an owner, and every admitted slot is backed by the resulting catalog. */
  lemma {:induction false} AdmitKeepsOwners(catalog: Catalog, slots: Slots, credentials: seq<Credential>)
    requires SlotsOwned(catalog, slots)
    ensures Admit(catalog, slots, credentials).Ok? ==>
      && Extends(catalog, Admit(catalog, slots, credentials).value.0)
      && SlotsOwned(Admit(catalog, slots, credentials).value.0, Admit(catalog, slots, credentials).value.1)
    decreases |credentials|
  {
    if credentials != [] && Admit(catalog, slots, credentials).Ok? {
      var c := credentials[0];
      AdmitKeepsOwners(catalog[c.event.lotId := OwnershipOf(c)], slots[c.index := c], credentials[1..]);
    }
  }

  // ----- which requests are admitted

  /** Two requested credentials fit together: different slots, and one owner and key for one lot. */
  predicate Compatible(c: Credential, d: Credential)
  {
    c.index != d.index && (c.event.lotId == d.event.lotId ==> OwnershipOf(c) == OwnershipOf(d))
  }

  /** A valid point, a free slot, and a lot that is new or already has this owner and key. */
  predicate Admissible(catalog: Catalog, slots: Slots, c: Credential)
  {
    && Geofence.ValidPoint(c.event.point) && c.index !in slots
    && (c.event.lotId in catalog ==> catalog[c.event.lotId] == OwnershipOf(c))
  }

  ghost predicate AllAdmissible(catalog: Catalog, slots: Slots, credentials: seq<Credential>)
  {
    && (forall c :: c in credentials ==> Admissible(catalog, slots, c))
    && forall i: nat, j: nat :: i < j < |credentials| ==> Compatible(credentials[i], credentials[j])
  }

  lemma {:induction false} AdmissibleAfter(catalog: Catalog, slots: Slots, c: Credential, d: Credential)
    ensures Admissible(catalog[c.event.lotId := OwnershipOf(c)], slots[c.index := c], d)
            && Admissible(catalog, slots, c)
       <==> Admissible(catalog, slots, d) && Compatible(c, d) && Admissible(catalog, slots, c)
  {
  }

  lemma {:induction false} AdmissibleFirst(catalog: Catalog, slots: Slots, credentials: seq<Credential>)
    requires credentials != []
    ensures var c, rest := credentials[0], credentials[1..];
      AllAdmissible(catalog, slots, credentials) <==>
        && Admissible(catalog, slots, c)
        && AllAdmissible(catalog[c.event.lotId := OwnershipOf(c)], slots[c.index := c], rest)
  {
    hide Admissible;
    hide Compatible;
    var c, rest := credentials[0], credentials[1..];
    assert credentials == [c] + rest;
    assert forall x :: x in credentials <==> x == c || x in rest;
    forall d
      ensures Admissible(catalog[c.event.lotId := OwnershipOf(c)], slots[c.index := c], d)
              && Admissible(catalog, slots, c)
         <==> Admissible(catalog, slots, d) && Compatible(c, d) && Admissible(catalog, slots, c)
    {
      AdmissibleAfter(catalog, slots, c, d);
    }
    forall i: nat, j: nat | i < j < |rest|
      ensures Compatible(rest[i], rest[j]) <==> Compatible(credentials[i + 1], credentials[j + 1])
    {
    }
  }

  /** The slots and owners after the requests: every requested credential in its slot, and nothing else new. */
  ghost predicate Admitted(catalog: Catalog, slots: Slots, credentials: seq<Credential>, owners: Catalog, filled: Slots)
  {
    && (forall c :: c in credentials ==> c.index in filled && filled[c.index] == c)
    && (forall i :: i in filled ==>
         (i in slots && filled[i] == slots[i]) || (filled[i] in credentials && filled[i].index == i))
    && (forall i :: i in slots ==> i in filled && filled[i] == slots[i])
    && (forall c :: c in credentials ==> c.event.lotId in owners && owners[c.event.lotId] == OwnershipOf(c))
    && (forall lot :: lot in owners ==> lot in catalog || exists c :: c in credentials && c.event.lotId == lot)
    && Extends(catalog, owners)
  }

  /** Requests are admitted exactly when all are admissible and compatible, and then exactly they are recorded. */
  lemma {:induction false} AdmitExactly(catalog: Catalog, slots: Slots, credentials: seq<Credential>)
    ensures Admit(catalog, slots, credentials).Ok? <==> AllAdmissible(catalog, slots, credentials)
    ensures Admit(catalog, slots, credentials).Ok? ==>
      var (owners, filled) := Admit(catalog, slots, credentials).value;
      Admitted(catalog, slots, credentials, owners, filled)
    decreases |credentials|
  {
    if credentials != [] {
      var c, rest := credentials[0], credentials[1..];
      AdmissibleFirst(catalog, slots, credentials);
      AdmitExactly(catalog[c.event.lotId := OwnershipOf(c)], slots[c.index := c], rest);
      if Admit(catalog, slots, credentials).Ok? {
        var (owners, filled) := Admit(catalog, slots, credentials).value;
        AdmittedFirst(catalog, slots, credentials, owners, filled);
      }
    }
  }

  lemma {:induction false} AdmittedFirst(catalog: Catalog, slots: Slots, credentials: seq<Credential>, owners: Catalog,
                                         filled: Slots)
    requires credentials != [] && Admissible(catalog, slots, credentials[0])
    requires var c := credentials[0];
      Admitted(catalog[c.event.lotId := OwnershipOf(c)], slots[c.index := c], credentials[1..], owners, filled)
    ensures Admitted(catalog, slots, credentials, owners, filled)
  {
    var c, rest := credentials[0], credentials[1..];
    assert credentials == [c] + rest;
    assert forall x :: x in credentials <==> x == c || x in rest;
  }

  /** The first request that cannot follow those before it decides the error. */
  lemma {:induction false} AdmitRefusesExactly(catalog: Catalog, slots: Slots, credentials: seq<Credential>,
                                               error: PolicyError)
    ensures Admit(catalog, slots, credentials) == Err(error) <==>
      exists k: nat :: k < |credentials| && RefusedAt(catalog, slots, credentials, k, error)
    decreases |credentials|
  {
    if credentials != [] {
      var c, rest := credentials[0], credentials[1..];
      var owners, filled := catalog[c.event.lotId := OwnershipOf(c)], slots[c.index := c];
      if Admissible(catalog, slots, c) {
        AdmitRefusesExactly(owners, filled, rest, error);
        forall k: nat | k < |rest|
          ensures var next := k + 1;
            RefusedAt(owners, filled, rest, k, error) <==> RefusedAt(catalog, slots, credentials, next, error)
        {
          RefusedLater(catalog, slots, credentials, k, error);
        }
        RefusedShift(catalog, slots, credentials, error);
        if k: nat :| k < |rest| && RefusedAt(owners, filled, rest, k, error) {
          assert RefusedAt(catalog, slots, credentials, k + 1, error);
        }
        if k: nat :| k < |credentials| && RefusedAt(catalog, slots, credentials, k, error) {
          assert RefusedAt(owners, filled, rest, k - 1, error);
        }
      } else {
        RefusedFirst(catalog, slots, credentials, error);
      }
    }
  }

  /** The requests before `k` are admitted and request `k` then fails with this error. */
  ghost predicate RefusedAt(catalog: Catalog, slots: Slots, credentials: seq<Credential>, k: nat, error: PolicyError)
    requires k < |credentials|
  {
    && AllAdmissible(catalog, slots, credentials[..k]) && !AllAdmissible(catalog, slots, credentials[..k + 1])
    && error == if Geofence.ValidPoint(credentials[k].event.point) then C2CredentialRoot else InvalidCoordinate
  }

  lemma {:induction false} RefusedLater(catalog: Catalog, slots: Slots, credentials: seq<Credential>, k: nat,
                                        error: PolicyError)
    requires k + 1 < |credentials| && Admissible(catalog, slots, credentials[0])
    ensures var c := credentials[0];
      RefusedAt(catalog[c.event.lotId := OwnershipOf(c)], slots[c.index := c], credentials[1..], k, error) <==>
        RefusedAt(catalog, slots, credentials, k + 1, error)
  {
    hide AllAdmissible;
    AdmissibleFirst(catalog, slots, credentials[..k + 1]);
    AdmissibleFirst(catalog, slots, credentials[..k + 2]);
    assert credentials[..k + 1][1..] == credentials[1..][..k];
    assert credentials[..k + 2][1..] == credentials[1..][..k + 1];
  }

  lemma {:induction false} RefusedFirst(catalog: Catalog, slots: Slots, credentials: seq<Credential>,
                                        error: PolicyError)
    requires credentials != [] && !Admissible(catalog, slots, credentials[0])
    ensures RefusedAt(catalog, slots, credentials, 0, error)
       <==> error == if Geofence.ValidPoint(credentials[0].event.point) then C2CredentialRoot else InvalidCoordinate
    ensures forall k: nat :: 0 < k < |credentials| ==> !RefusedAt(catalog, slots, credentials, k, error)
  {
    assert credentials[..1][0] == credentials[0];
    forall k: nat | 0 < k < |credentials|
      ensures !AllAdmissible(catalog, slots, credentials[..k])
    {
      assert credentials[..k][0] == credentials[0];
    }
  }

  lemma {:induction false} RefusedShift(catalog: Catalog, slots: Slots, credentials: seq<Credential>,
                                        error: PolicyError)
    requires credentials != [] && Admissible(catalog, slots, credentials[0])
    ensures !RefusedAt(catalog, slots, credentials, 0, error)
  {
    assert credentials[..1] == [credentials[0]];
  }

  function Lots(credentials: seq<Credential>): set<U64>
  {
    set c | c in credentials :: c.event.lotId
  }

  /** The conditions of a snapshot, in terms of the request and the catalog. */
  ghost predicate CanIssueAll(catalog: Catalog, credentials: seq<Credential>, polygon: seq<PointE6>)
  {
    && |credentials| <= SLOTS && Geofence.PolygonVerdict(polygon).Ok?
    && AllAdmissible(catalog, map[], credentials) && |catalog.Keys + Lots(credentials)| <= SLOTS
  }

  lemma {:induction false} AdmittedLots(catalog: Catalog, credentials: seq<Credential>, owners: Catalog, filled: Slots)
    requires Admitted(catalog, map[], credentials, owners, filled)
    ensures owners.Keys == catalog.Keys + Lots(credentials)
  {
  }

  /** A snapshot succeeds exactly under these conditions and records exactly the request. */
  lemma {:induction false} IssueExactly(catalog: Catalog, credentials: seq<Credential>, polygon: seq<PointE6>)
    ensures Issue(catalog, credentials, polygon).Ok? <==> CanIssueAll(catalog, credentials, polygon)
    ensures Issue(catalog, credentials, polygon).Ok? ==>
      var (owners, filled) := Issue(catalog, credentials, polygon).value;
      Admitted(catalog, map[], credentials, owners, filled)
  {
    hide Admitted;
    hide AllAdmissible;
    hide Admit;
    hide Geofence.PolygonVerdict;
    hide Lots;
    AdmitExactly(catalog, map[], credentials);
    var admitted := Admit(catalog, map[], credentials);
    if admitted.Ok? {
      AdmittedLots(catalog, credentials, admitted.value.0, admitted.value.1);
      assert |admitted.value.0| == |admitted.value.0.Keys|;
    }
  }

  /** Which error a refused snapshot request gets. */
  lemma {:induction false} IssueRefusesExactly(catalog: Catalog, credentials: seq<Credential>, polygon: seq<PointE6>,
                                               error: PolicyError)
    ensures Issue(catalog, credentials, polygon) == Err(error) <==>
      if |credentials| > SLOTS then error == InvalidInput
      else if Geofence.PolygonVerdict(polygon).Err? then Geofence.PolygonVerdict(polygon) == Err(error)
      else
        || (exists k: nat :: k < |credentials| && RefusedAt(catalog, map[], credentials, k, error))
        || (AllAdmissible(catalog, map[], credentials) && |catalog.Keys + Lots(credentials)| > SLOTS
            && error == InvalidInput)
  {
    hide Admitted;
    hide AllAdmissible;
    hide RefusedAt;
    hide Admit;
    hide Geofence.PolygonVerdict;
    hide Lots;
    AdmitExactly(catalog, map[], credentials);
    AdmitRefusesExactly(catalog, map[], credentials, error);
    var admitted := Admit(catalog, map[], credentials);
    if admitted.Ok? {
      AdmittedLots(catalog, credentials, admitted.value.0, admitted.value.1);
      assert |admitted.value.0| == |admitted.value.0.Keys|;
    }
  }

  datatype RegistrySnapshot = RegistrySnapshot(credentials: Slots, levels: seq<seq<Digest>>, polygon: seq<PointE6>,
                                               polygonNonce: Digest)

  ghost function SnapshotRoot(env: Env, slots: Slots): Digest
  {
    TreeNode(CertificateTree, SlotLeaves(env, slots), env.certificateDepth, 0)
  }

  ghost predicate ValidSnapshot(env: Env, s: RegistrySnapshot)
  {
    && IsTree(CertificateTree, SlotLeaves(env, s.credentials), env.certificateDepth, s.levels)
    && forall i :: i in s.credentials ==> s.credentials[i].index == i
  }

  /** `RegistrySnapshot::root` reads the single entry of the last level. */
  method Root(env: Env, s: RegistrySnapshot) returns (root: Digest)
    requires ValidSnapshot(env, s)
    ensures root == SnapshotRoot(env, s.credentials)
  {
    assert IsLevel(CertificateTree, SlotLeaves(env, s.credentials), env.certificateDepth, env.certificateDepth,
                   s.levels[env.certificateDepth]);
    assert Pow2(0) == 1;
    root := s.levels[|s.levels| - 1][0];
  }

  predicate Matches(env: Env, c: Credential, event: EpcisEvent, owner: Digest, keyCommitment: Digest)
  {
    && c.event.lotId == event.lotId && c.event.actorPublicKey == event.actorPublicKey
    && c.event.certificateId == event.certificateId && c.event.role == event.role
    && env.wordOf(c.ownerIdentity) == owner && env.wordOf(c.keyCommitment) == keyCommitment
  }

  lemma {:induction false} SlotMatches(env: Env, slots: Slots, slot: nat, event: EpcisEvent, owner: Digest,
                                       keyCommitment: Digest)
    requires SlotLeaves(env, slots)(slot) == CertificateLeafOf(slot, event, owner, keyCommitment)
    ensures slot in slots && Matches(env, slots[slot], event, owner, keyCommitment)
  {
    var leaf := CertificateLeafOf(slot, event, owner, keyCommitment);
    assert slot in slots;
    var c := slots[slot];
    assert leaf == CertificateLeafOf(slot, c.event, env.wordOf(c.ownerIdentity), env.wordOf(c.keyCommitment));
    assert leaf.certifiedLot == c.event.lotId && leaf.certificateId == c.event.certificateId;
  }

  /** Finds any matching credential; the path handed out recomputes the snapshot root for the caller's event. */
  method CredentialPath(env: Env, s: RegistrySnapshot, event: EpcisEvent, owner: Digest, key: Digest)
      returns (r: Result<(U16, seq<Digest>), PolicyError>)
    requires ValidEnv(env) && ValidSnapshot(env, s)
    ensures r.Err? <==> forall i :: i in s.credentials ==>
        !Matches(env, s.credentials[i], event, owner, KeyCommitment(key))
    ensures r.Err? ==> r.error == C2CredentialRoot
    ensures r.Ok? ==>
      && |r.value.1| == env.certificateDepth
      && CredentialRoot(r.value.0, event, owner, KeyCommitment(key), r.value.1) == SnapshotRoot(env, s.credentials)
  {
    if !exists i | i in s.credentials :: Matches(env, s.credentials[i], event, owner, KeyCommitment(key)) {
      return Err(C2CredentialRoot);
    }
    var i :| i in s.credentials && Matches(env, s.credentials[i], event, owner, KeyCommitment(key));
    var slot := s.credentials[i].index;
    LevelPathIsSiblingPath(CertificateTree, SlotLeaves(env, s.credentials), env.certificateDepth, s.levels, slot);
    var path := LevelPath(s.levels, slot, |s.levels| - 1);
    SlotOpens(env, s.credentials, slot, event, owner, KeyCommitment(key));
    return Ok((slot, path));
  }

  /** The tree's own sibling path of a matching slot opens the snapshot root. */
  lemma {:induction false} SlotOpens(env: Env, slots: Slots, slot: U16, event: EpcisEvent, owner: Digest,
                                     keyCommitment: Digest)
    requires ValidEnv(env) && slot in slots && Matches(env, slots[slot], event, owner, keyCommitment)
    ensures var path := SiblingPath(CertificateTree, SlotLeaves(env, slots), 0, slot, env.certificateDepth);
      CredentialRoot(slot, event, owner, keyCommitment, path) == SnapshotRoot(env, slots)
  {
    var leaves := SlotLeaves(env, slots);
    ShiftBound(slot, env.certificateDepth, 0);
    assert Pow2(0) == 1;
    OpeningIsExact(CertificateTree, leaves, 0, slot, leaves(slot),
                   SiblingPath(CertificateTree, leaves, 0, slot, env.certificateDepth));
  }

  class RegistryIssuer {
    var ownership: Catalog

    constructor ()
      ensures ownership == map[]
    {
      ownership := map[];
    }

    /** All or nothing: the catalog moves to the admitted one on success and is untouched on rejection. */
    method Snapshot(env: Env, credentials: seq<Credential>, polygon: seq<PointE6>, polygonNonce: Digest)
        returns (r: Result<RegistrySnapshot, PolicyError>)
      requires ValidEnv(env)
      modifies this
      ensures var issued := Issue(old(ownership), credentials, polygon);
        && r.Ok? == issued.Ok?
        && (r.Err? ==> r.error == issued.error && ownership == old(ownership))
        && (r.Ok? <==> CanIssueAll(old(ownership), credentials, polygon))
        && (r.Ok? ==> Admitted(old(ownership), map[], credentials, ownership, r.value.credentials))
        && (r.Ok? ==>
          && ownership == issued.value.0
          && r.value.credentials == issued.value.1 && r.value.polygon == polygon && r.value.polygonNonce == polygonNonce
          && ValidSnapshot(env, r.value))
    {
      hide CanIssueAll;
      hide Admitted;
      IssueExactly(ownership, credentials, polygon);
      if |credentials| > SLOTS { return Err(InvalidInput); }
      var valid := Geofence.ValidatePolygon(polygon);
      if valid.Err? { return Err(valid.error); }
      var admitted := AdmitAll(ownership, credentials);
      if admitted.Err? { return Err(admitted.error); }
      var (proposed, slots) := admitted.value;
      if |proposed| > SLOTS { return Err(InvalidInput); }
      var levels := BuildCertificateTree(env, slots);
      ownership := proposed;
      return Ok(RegistrySnapshot(slots, levels, polygon, polygonNonce));
    }
  }

  /** The issuer's loop over the credentials. */
  method AdmitAll(catalog: Catalog, credentials: seq<Credential>) returns (r: Result<(Catalog, Slots), PolicyError>)
    ensures r == Admit(catalog, map[], credentials)
    ensures r.Ok? ==> forall i :: i in r.value.1 ==> r.value.1[i].index == i
  {
    var proposed: Catalog := catalog;
    var slots: Slots := map[];
    for k := 0 to |credentials|
      invariant Admit(catalog, map[], credentials) == Admit(proposed, slots, credentials[k..])
      invariant forall i :: i in slots ==> slots[i].index == i
    {
      assert credentials[k..][0] == credentials[k] && credentials[k..][1..] == credentials[k + 1..];
      var c := credentials[k];
      if !Geofence.ValidPoint(c.event.point) { return Err(InvalidCoordinate); }
      if (c.event.lotId in proposed && proposed[c.event.lotId] != OwnershipOf(c)) || c.index in slots {
        return Err(C2CredentialRoot);
      }
      slots := slots[c.index := c];
      proposed := proposed[c.event.lotId := OwnershipOf(c)];
    }
    return Ok((proposed, slots));
  }

  method BuildCertificateTree(env: Env, slots: Slots) returns (levels: seq<seq<Digest>>)
    requires ValidEnv(env)
    ensures IsTree(CertificateTree, SlotLeaves(env, slots), env.certificateDepth, levels)
  {
    ghost var height := env.certificateDepth;
    var leaves := seq(SLOTS, i requires 0 <= i < SLOTS => SlotLeaves(env, slots)(i));
    levels := BuildLevels(CertificateTree, leaves, height);
    forall d: nat | d <= height
      ensures IsLevel(CertificateTree, SlotLeaves(env, slots), height, d, levels[d])
    {
      assert IsLevel(CertificateTree, LeafAt(leaves), height, d, levels[d]);
      forall p: nat | p < |levels[d]|
        ensures levels[d][p] == TreeNode(CertificateTree, SlotLeaves(env, slots), d, p)
      {
        SubtreeInside(height, d, p);
        TreeNodeExtensional(CertificateTree, LeafAt(leaves), SlotLeaves(env, slots), d, p);
      }
    }
  }

  // ----- the order of the saved rows

  ghost predicate SortedLots(catalog: Catalog, lots: seq<U64>)
  {
    Ascending(lots) && forall lot :: lot in lots <==> lot in catalog
  }

  predicate IsLeast(lots: set<U64>, lot: U64)
  {
    lot in lots && forall other | other in lots :: lot <= other
  }

  lemma {:induction false} LeastExists(lots: set<U64>)
    requires lots != {}
    ensures exists lot :: IsLeast(lots, lot)
  {
    var first :| first in lots;
    if lots == {first} {
      assert IsLeast(lots, first);
    } else {
      LeastExists(lots - {first});
      var other :| IsLeast(lots - {first}, other);
      assert forall lot :: lot in lots ==> lot == first || lot in lots - {first};
      assert IsLeast(lots, if other < first then other else first);
    }
  }

  function Sort(lots: set<U64>): seq<U64>
  {
    if lots == {} then []
    else
      LeastExists(lots);
      var least :| IsLeast(lots, least);
      [least] + Sort(lots - {least})
  }

  lemma {:induction false} SortIsSorted(lots: set<U64>)
    ensures |Sort(lots)| == |lots|
    ensures forall lot :: lot in Sort(lots) <==> lot in lots
    ensures Ascending(Sort(lots))
  {
    if lots != {} {
      LeastExists(lots);
      var least :| IsLeast(lots, least);
      SortIsSorted(lots - {least});
      PrependLeast(lots, least, Sort(lots - {least}));
    }
  }

  lemma {:induction false} PrependLeast(lots: set<U64>, least: U64, tail: seq<U64>)
    requires IsLeast(lots, least)
    requires forall lot :: lot in tail <==> lot in lots - {least}
    requires Ascending(tail)
    ensures forall lot :: lot in [least] + tail <==> lot in lots
    ensures Ascending([least] + tail)
  {
    var sorted := [least] + tail;
    forall i: nat, j: nat | i < j < |sorted|
      ensures sorted[i] < sorted[j]
    {
      assert sorted[j] == tail[j - 1] && tail[j - 1] in tail;
      if i > 0 { assert sorted[i] == tail[i - 1]; }
    }
  }

  /** A set has one ascending listing. */
  lemma {:induction false} SortIsUnique(lots: set<U64>, listed: seq<U64>)
    requires Ascending(listed) && forall lot :: lot in listed <==> lot in lots
    ensures listed == Sort(lots)
    decreases |listed|
  {
    if lots == {} {
      FirstIsMember(listed);
    } else {
      LeastExists(lots);
      var least :| IsLeast(lots, least);
      var k :| 0 <= k < |listed| && listed[k] == least;
      assert listed[0] in listed;
      assert k == 0;
      var tail := listed[1..];
      forall lot
        ensures lot in tail <==> lot in lots - {least}
      {
        if lot in tail {
          var j :| 0 <= j < |tail| && tail[j] == lot;
          assert listed[0] < listed[j + 1] && listed[j + 1] in listed;
        }
        if lot in lots - {least} {
          var j :| 0 <= j < |listed| && listed[j] == lot;
          assert tail[j - 1] == lot;
        }
      }
      SortIsUnique(lots - {least}, tail);
    }
  }

  // ----- the persisted catalog

  /** One saved row. */
  datatype Row = Row(lot: U64, ownership: Ownership)

  function EncodeRow(row: Row): (b: Bytes)
    ensures |b| == ROW_BYTES
  {
    ToBytes(row.lot, 8) + row.ownership.owner + row.ownership.keyCommitment
  }

  function ReadRow(b: Bytes): Row
    requires |b| == ROW_BYTES
  {
    Row(ReadU64(b[..8]), Ownership(b[8..40], b[40..72]))
  }

  /** A row is the lot in eight bytes, the owner in 32 and the key commitment in 32. */
  lemma {:induction false} RowLayout(row: Row)
    ensures var b := EncodeRow(row);
      b[..8] == ToBytes(row.lot, 8) && b[8..40] == row.ownership.owner && b[40..] == row.ownership.keyCommitment
  {
  }

  lemma {:induction false} RowExactly(b: Bytes, row: Row)
    requires |b| == ROW_BYTES
    ensures ReadRow(b) == row <==> b == EncodeRow(row)
  {
    if b == EncodeRow(row) { RowReadsBack(row); }
    if ReadRow(b) == row { RowWritesBack(b); }
  }

  lemma {:induction false} RowReadsBack(row: Row)
    ensures ReadRow(EncodeRow(row)) == row
  {
    var b := EncodeRow(row);
    WordSizes();
    ReadsBack(row.lot, 8);
    assert b[..8] == ToBytes(row.lot, 8);
    assert b[8..40] == row.ownership.owner && b[40..72] == row.ownership.keyCommitment;
  }

  lemma {:induction false} RowWritesBack(b: Bytes)
    requires |b| == ROW_BYTES
    ensures EncodeRow(ReadRow(b)) == b
  {
    WritesBack(b[..8]);
    ThreeParts(b, 8, 40);
  }

  lemma {:induction false} ThreeParts(b: Bytes, i: nat, j: nat)
    requires i <= j <= |b|
    ensures b[..i] + b[i..j] + b[j..] == b
  {
  }

  function EncodeRows(rows: seq<Row>): (b: Bytes)
    ensures |b| == |rows| * ROW_BYTES
  {
    if rows == [] then [] else EncodeRow(rows[0]) + EncodeRows(rows[1..])
  }

  function ReadRows(b: Bytes, count: nat): (rows: seq<Row>)
    requires |b| == count * ROW_BYTES
    ensures |rows| == count
    decreases count
  {
    if count == 0 then [] else [ReadRow(b[..ROW_BYTES])] + ReadRows(b[ROW_BYTES..], count - 1)
  }

  lemma {:induction false} RowsExactly(b: Bytes, count: nat, rows: seq<Row>)
    requires |b| == count * ROW_BYTES
    ensures ReadRows(b, count) == rows <==> |rows| == count && b == EncodeRows(rows)
    decreases count
  {
    if count != 0 && |rows| == count {
      var front, rest := b[..ROW_BYTES], b[ROW_BYTES..];
      RowExactly(front, rows[0]);
      RowsExactly(rest, count - 1, rows[1..]);
      assert b == front + rest && rows == [rows[0]] + rows[1..];
      FrontAndRest(front, rest, EncodeRow(rows[0]), EncodeRows(rows[1..]));
    }
  }

  lemma {:induction false} FrontAndRest(front: Bytes, rest: Bytes, first: Bytes, more: Bytes)
    requires |front| == |first|
    ensures front + rest == first + more <==> front == first && rest == more
  {
    if front + rest == first + more {
      assert (front + rest)[..|front|] == front && (first + more)[..|front|] == first;
      assert (front + rest)[|front|..] == rest && (first + more)[|front|..] == more;
    }
  }

  lemma {:induction false} EncodeRowsAppend(rows: seq<Row>, row: Row)
    ensures EncodeRows(rows + [row]) == EncodeRows(rows) + EncodeRow(row)
  {
    if rows == [] {
      assert EncodeRows([row]) == EncodeRow(row) + EncodeRows([]);
    } else {
      assert (rows + [row])[1..] == rows[1..] + [row];
      EncodeRowsAppend(rows[1..], row);
    }
  }

  /** A catalog file: version, count, rows. */
  function Framed(rows: seq<Row>): Bytes
  {
    [2] + ToBytes(|rows|, 8) + EncodeRows(rows)
  }

  function RowsOf(catalog: Catalog, lots: seq<U64>): seq<Row>
    requires forall lot :: lot in lots ==> lot in catalog
  {
    seq(|lots|, k requires 0 <= k < |lots| => assert lots[k] in lots; Row(lots[k], catalog[lots[k]]))
  }

  /** What saving writes: the rows in ascending lot order. */
  function Save(catalog: Catalog): Bytes
  {
    SortIsSorted(catalog.Keys);
    Framed(RowsOf(catalog, Sort(catalog.Keys)))
  }

  /** `encode_catalog`. */
  method EncodeCatalog(catalog: Catalog) returns (bytes: Bytes)
    ensures bytes == Save(catalog)
  {
    var sorted := Sort(catalog.Keys);
    SortIsSorted(catalog.Keys);
    ghost var rows := RowsOf(catalog, sorted);
    bytes := [2] + ToBytes(|sorted|, 8);
    ghost var header := bytes;
    for k := 0 to |sorted|
      invariant bytes == header + EncodeRows(rows[..k])
    {
      assert sorted[k] in sorted;
      NextRowAppended(header, rows, k);
      bytes := bytes + EncodeRow(Row(sorted[k], catalog[sorted[k]]));
    }
    assert rows[..|sorted|] == rows;
  }

  lemma {:induction false} NextRowAppended(header: Bytes, rows: seq<Row>, k: nat)
    requires k < |rows|
    ensures header + EncodeRows(rows[..k + 1]) == header + EncodeRows(rows[..k]) + EncodeRow(rows[k])
  {
    assert rows[..k + 1] == rows[..k] + [rows[k]];
    EncodeRowsAppend(rows[..k], rows[k]);
    Regroup(header, EncodeRows(rows[..k]), EncodeRow(rows[k]));
  }

  lemma {:induction false} Regroup(a: Bytes, b: Bytes, c: Bytes)
    ensures a + (b + c) == a + b + c
  {
  }

  /** Inserts the rows in turn; a lot listed twice is refused. */
  function Collect(rows: seq<Row>, catalog: Catalog): Result<Catalog, PolicyError>
    decreases |rows|
  {
    if rows == [] then Ok(catalog)
    else if rows[0].lot in catalog then Err(InvalidInput)
    else Collect(rows[1..], catalog[rows[0].lot := rows[0].ownership])
  }

  predicate HeaderOk(b: Bytes)
  {
    && 9 <= |b| <= 9 + SLOTS * ROW_BYTES && b[0] == 2
    && BigEndian(b[1..9]) <= SLOTS && |b| == 9 + BigEndian(b[1..9]) * ROW_BYTES
  }

  function FileRows(b: Bytes): seq<Row>
    requires HeaderOk(b)
  {
    ReadRows(b[9..], BigEndian(b[1..9]))
  }

  function DecodeCatalogSpec(b: Bytes): Result<Catalog, PolicyError>
  {
    if HeaderOk(b) then Collect(FileRows(b), map[]) else Err(InvalidInput)
  }

  /** `decode_catalog`: header checks, then one row at a time, rejecting a repeated lot. */
  method DecodeCatalog(b: Bytes) returns (r: Result<Catalog, PolicyError>)
    ensures r == DecodeCatalogSpec(b)
  {
    if |b| < 9 || |b| > 9 + SLOTS * ROW_BYTES || b[0] != 2 { return Err(InvalidInput); }
    var count := BigEndian(b[1..9]);
    if count > SLOTS || |b| != 9 + count * ROW_BYTES { return Err(InvalidInput); }
    var catalog: Catalog := map[];
    for k := 0 to count
      invariant DecodeCatalogSpec(b) == Collect(ReadRows(b[9 + k * ROW_BYTES..], count - k), catalog)
    {
      ghost var rest := b[9 + k * ROW_BYTES..];
      var row := ReadRow(b[9 + k * ROW_BYTES..9 + (k + 1) * ROW_BYTES]);
      NextRow(b, rest, k, count);
      if row.lot in catalog { return Err(InvalidInput); }
      catalog := catalog[row.lot := row.ownership];
    }
    return Ok(catalog);
  }

  lemma {:induction false} NextRow(b: Bytes, rest: Bytes, k: nat, count: nat)
    requires k < count && |b| == 9 + count * ROW_BYTES && rest == b[9 + k * ROW_BYTES..]
    ensures ReadRows(rest, count - k)
         == [ReadRow(b[9 + k * ROW_BYTES..9 + (k + 1) * ROW_BYTES])]
             + ReadRows(b[9 + (k + 1) * ROW_BYTES..], count - k - 1)
  {
    assert rest[..ROW_BYTES] == b[9 + k * ROW_BYTES..9 + (k + 1) * ROW_BYTES];
    assert rest[ROW_BYTES..] == b[9 + (k + 1) * ROW_BYTES..];
  }

  // ----- what the reader accepts

  ghost predicate DifferentLots(rows: seq<Row>)
  {
    forall i: nat, j: nat :: i < j < |rows| ==> rows[i].lot != rows[j].lot
  }

  ghost predicate AscendingLots(rows: seq<Row>)
  {
    forall i: nat, j: nat :: i < j < |rows| ==> rows[i].lot < rows[j].lot
  }

  ghost predicate Listed(rows: seq<Row>, lot: U64)
  {
    exists row :: row in rows && row.lot == lot
  }

  /** The rows name exactly the catalog's lots, each with its ownership. */
  ghost predicate Lists(rows: seq<Row>, catalog: Catalog)
  {
    && (forall row :: row in rows ==> row.lot in catalog && catalog[row.lot] == row.ownership)
    && forall lot :: lot in catalog ==> Listed(rows, lot)
  }

  lemma {:induction false} CollectAcceptsExactly(rows: seq<Row>, catalog: Catalog)
    ensures Collect(rows, catalog).Ok? <==> DifferentLots(rows) && forall row :: row in rows ==> row.lot !in catalog
    decreases |rows|
  {
    if rows != [] {
      var first, rest := rows[0], rows[1..];
      assert first in rows && forall row :: row in rows <==> row == first || row in rest;
      if first.lot !in catalog {
        CollectAcceptsExactly(rest, catalog[first.lot := first.ownership]);
        assert forall k: nat :: k < |rest| ==> rest[k] == rows[k + 1] && rest[k] in rest;
        DifferentFromFirst(rows);
      }
    }
  }

  lemma {:induction false} DifferentFromFirst(rows: seq<Row>)
    requires rows != []
    ensures DifferentLots(rows) <==> DifferentLots(rows[1..]) && forall row :: row in rows[1..] ==>
        row.lot != rows[0].lot
  {
    var rest := rows[1..];
    assert forall k: nat :: k < |rest| ==> rest[k] == rows[k + 1];
    if DifferentLots(rest) && forall row :: row in rest ==> row.lot != rows[0].lot {
      forall i: nat, j: nat | i < j < |rows|
        ensures rows[i].lot != rows[j].lot
      {
        assert rows[j] == rest[j - 1] && rest[j - 1] in rest;
        if i > 0 { assert rows[i] == rest[i - 1]; }
      }
    }
  }

  lemma {:induction false} CollectSize(rows: seq<Row>, catalog: Catalog)
    requires Collect(rows, catalog).Ok?
    ensures |Collect(rows, catalog).value| == |catalog| + |rows|
    decreases |rows|
  {
    if rows != [] {
      var more := catalog[rows[0].lot := rows[0].ownership];
      assert more.Keys == catalog.Keys + {rows[0].lot};
      CollectSize(rows[1..], more);
    }
  }

  /** Collecting keeps what was there and adds one lot for every row. */
  lemma {:induction false} CollectKeeps(rows: seq<Row>, catalog: Catalog)
    requires Collect(rows, catalog).Ok?
    ensures Extends(catalog, Collect(rows, catalog).value)
    ensures var after := Collect(rows, catalog).value;
      forall k: nat :: k < |rows| ==> rows[k].lot in after && after[rows[k].lot] == rows[k].ownership
    decreases |rows|
  {
    if rows != [] {
      var more := catalog[rows[0].lot := rows[0].ownership];
      CollectKeeps(rows[1..], more);
      assert rows[0].lot in more;
      assert forall k: nat :: 0 < k < |rows| ==> rows[k] == rows[1..][k - 1];
    }
  }

  lemma {:induction false} CollectAddsOnly(rows: seq<Row>, catalog: Catalog, lot: U64)
    requires Collect(rows, catalog).Ok? && lot in Collect(rows, catalog).value && lot !in catalog
    ensures Listed(rows, lot)
    decreases |rows|
  {
    if rows[0].lot == lot {
      assert rows[0] in rows;
    } else {
      CollectAddsOnly(rows[1..], catalog[rows[0].lot := rows[0].ownership], lot);
      var row :| row in rows[1..] && row.lot == lot;
      assert row in rows;
    }
  }

  /** The collected rows list the result. */
  lemma {:induction false} CollectLists(rows: seq<Row>)
    requires Collect(rows, map[]).Ok?
    ensures Lists(rows, Collect(rows, map[]).value) && |Collect(rows, map[]).value| == |rows|
  {
    var after := Collect(rows, map[]).value;
    CollectSize(rows, map[]);
    CollectKeeps(rows, map[]);
    forall lot | lot in after
      ensures Listed(rows, lot)
    {
      CollectAddsOnly(rows, map[], lot);
    }
  }

  lemma {:induction false} SameListing(rows: seq<Row>, a: Catalog, b: Catalog)
    requires Lists(rows, a) && Lists(rows, b)
    ensures a == b
  {
    forall lot
      ensures lot in a <==> lot in b
      ensures lot in a ==> a[lot] == b[lot]
    {
    }
  }

  lemma {:induction false} FrameExactly(b: Bytes, rows: seq<Row>)
    requires |rows| <= SLOTS
    ensures b == Framed(rows) <==> HeaderOk(b) && FileRows(b) == rows
  {
    if b == Framed(rows) { FrameReadsBack(rows); }
    if HeaderOk(b) && FileRows(b) == rows { FrameWritesBack(b); }
  }

  lemma {:induction false} FrameReadsBack(rows: seq<Row>)
    requires |rows| <= SLOTS
    ensures HeaderOk(Framed(rows)) && FileRows(Framed(rows)) == rows
  {
    var b := Framed(rows);
    WordSizes();
    ReadsBack(|rows|, 8);
    assert b[1..9] == ToBytes(|rows|, 8);
    assert b[9..] == EncodeRows(rows);
    RowsExactly(b[9..], |rows|, rows);
  }

  lemma {:induction false} FrameWritesBack(b: Bytes)
    requires HeaderOk(b)
    ensures Framed(FileRows(b)) == b
  {
    RowsExactly(b[9..], BigEndian(b[1..9]), FileRows(b));
    WritesBack(b[1..9]);
    ThreeParts(b, 1, 9);
    assert b[..1] == [b[0]];
  }

  /**
   * The reader accepts exactly the files of at most 65,536 rows that name different lots, and returns
   * the catalog they list; every order of the rows is accepted.
   */
  lemma {:induction false} CatalogExactly(b: Bytes, catalog: Catalog)
    ensures DecodeCatalogSpec(b) == Ok(catalog) <==>
      exists rows :: b == Framed(rows) && |rows| <= SLOTS && DifferentLots(rows) && Lists(rows, catalog)
  {
    if DecodeCatalogSpec(b) == Ok(catalog) {
      var rows := FileRows(b);
      FrameExactly(b, rows);
      CollectAcceptsExactly(rows, map[]);
      CollectLists(rows);
    }
    if exists rows :: b == Framed(rows) && |rows| <= SLOTS && DifferentLots(rows) && Lists(rows, catalog) {
      var rows :| b == Framed(rows) && |rows| <= SLOTS && DifferentLots(rows) && Lists(rows, catalog);
      FrameExactly(b, rows);
      CollectAcceptsExactly(rows, map[]);
      CollectLists(rows);
      SameListing(rows, catalog, Collect(rows, map[]).value);
    }
  }

  /** A restored catalog has as many lots as the file has rows. */
  lemma {:induction false} RestoredIsBounded(b: Bytes)
    requires DecodeCatalogSpec(b).Ok?
    ensures |DecodeCatalogSpec(b).value| == BigEndian(b[1..9]) <= SLOTS
  {
    CollectLists(FileRows(b));
  }

  lemma {:induction false} SavedRows(catalog: Catalog)
    ensures forall lot :: lot in Sort(catalog.Keys) ==> lot in catalog
    ensures var rows := RowsOf(catalog, Sort(catalog.Keys));
      Save(catalog) == Framed(rows) && |rows| == |catalog| && AscendingLots(rows) && Lists(rows, catalog)
  {
    SortIsSorted(catalog.Keys);
    RowsList(catalog, Sort(catalog.Keys));
  }

  lemma {:induction false} RowsList(catalog: Catalog, sorted: seq<U64>)
    requires SortedLots(catalog, sorted)
    ensures AscendingLots(RowsOf(catalog, sorted)) && Lists(RowsOf(catalog, sorted), catalog)
  {
    var rows := RowsOf(catalog, sorted);
    forall lot | lot in catalog
      ensures Listed(rows, lot)
    {
      var k :| 0 <= k < |sorted| && sorted[k] == lot;
      assert rows[k] in rows && rows[k].lot == lot;
    }
  }

  /** Restoring a saved catalog of at most 65,536 lots gives it back. */
  lemma {:induction false} CatalogReadsBack(catalog: Catalog)
    requires |catalog| <= SLOTS
    ensures DecodeCatalogSpec(Save(catalog)) == Ok(catalog)
  {
    SavedRows(catalog);
    CatalogExactly(Save(catalog), catalog);
  }

  function LotsOf(rows: seq<Row>): seq<U64>
  {
    seq(|rows|, k requires 0 <= k < |rows| => rows[k].lot)
  }

  lemma {:induction false} ListedLots(rows: seq<Row>, catalog: Catalog)
    requires Lists(rows, catalog)
    ensures forall lot :: lot in LotsOf(rows) <==> lot in catalog.Keys
  {
    var lots := LotsOf(rows);
    forall lot
      ensures lot in lots <==> lot in catalog.Keys
    {
      if lot in lots {
        var k :| 0 <= k < |lots| && lots[k] == lot;
        assert rows[k] in rows;
      }
      if lot in catalog.Keys {
        var row :| row in rows && row.lot == lot;
        var k :| 0 <= k < |rows| && rows[k] == row;
        assert lots[k] == lot;
      }
    }
  }

  lemma {:induction false} AscendingListing(rows: seq<Row>, catalog: Catalog)
    requires AscendingLots(rows) && Lists(rows, catalog)
    ensures (forall lot :: lot in Sort(catalog.Keys) ==> lot in catalog) && rows == RowsOf(catalog, Sort(catalog.Keys))
  {
    ListedLots(rows, catalog);
    SortIsUnique(catalog.Keys, LotsOf(rows));
    SortIsSorted(catalog.Keys);
    var sorted := RowsOf(catalog, Sort(catalog.Keys));
    forall k: nat | k < |rows|
      ensures rows[k] == sorted[k]
    {
      assert rows[k] in rows && LotsOf(rows)[k] == rows[k].lot;
    }
  }

  /** Saving a restored catalog writes the same file exactly when its rows were in ascending order. */
  lemma {:induction false} ResavedExactly(b: Bytes)
    requires DecodeCatalogSpec(b).Ok?
    ensures Save(DecodeCatalogSpec(b).value) == b <==> AscendingLots(FileRows(b))
  {
    var catalog, rows := DecodeCatalogSpec(b).value, FileRows(b);
    FrameExactly(b, rows);
    CollectLists(rows);
    SavedRows(catalog);
    FrameExactly(b, RowsOf(catalog, Sort(catalog.Keys)));
    if AscendingLots(rows) {
      AscendingListing(rows, catalog);
    }
  }
}
