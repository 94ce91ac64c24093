# Formal model of the policy-v2 rollup

This Dafny project models the policy-v2 lot rollup and the programs around it, and proves what they are
for.  A *leaf* evaluates one lot: its events must lie outside a forbidden polygon, be signed and
credentialled, and its nullifier must be unused; acceptance moves a sparse Merkle root by exactly that
nullifier.  An *issuer* binds every lot to one owner and one nullifier key.  *Epochs* aggregate leaves
in a tree of fan-in eight, an *archive* records every leaf's path, and *disclosures* open selected
fields of a leaf against the anchored root.  Two concurrent pipelines feed leaves through this
machinery and account for them.

The main results:

- No lot is accepted twice (`NoLotTwice`), the exact condition on an issuer's history under which that holds
  (`RepeatedLots`, `StaleRestart`), and every epoch of such a run aggregates to the root of
  exactly the enlarged nullifier set (`EndToEnd`).
- A leaf, a snapshot and a polygon are accepted under exactly the stated conditions, each refusal has a stated
  cause, and what is published is characterized field by field (`Policy`, `Registry`, `Geofence`).
- The mutable sparse map refines the complete tree of a set (`SparseNullifiers`).
- The reduction tree means the flat chain, never refuses a well-formed one (`ReductionTree`), and what it
  accepts is characterized by the list alone (`ReductionExact`); every archived path authenticates, and
  the root pins the leaf (`Archive`, `Authentication`), and a disclosure opens exactly the fields it was
  asked for (`Disclosure`).
- The parallel producer releases in order in every interleaving and always finishes when undisturbed
  (`Producer`); the consumer conserves events, shipments and roots and completes exactly when nothing
  outside it fails (`Consumer`); the end-to-end benchmark's counters reconcile and both of its threads
  always come to an end (`E2Pipeline`).
- The threshold constraint system is sound and complete (`C3Air`), the exact Wilcoxon program equals
  brute force (`Wilcoxon`), the geofence depends only on the closed curve (`Geofence`), and its integer
  segment test decides whether two segments meet (`Segments`).
- The formats of events, policy inputs, leaf public values and epoch inputs are bijective on what they
  accept (`Wire`, `EpochWire`) and agree with the symbolic words (`AbiBridge`); the issuer's catalog
  accepts its rows in any order and writes them in ascending order (`Registry`).

| file | models |
|---|---|
| `Primitives.dfy`, `Sequences.dfy`, `Sums.dfy`, `Digests.dfy`, `PolicyTypes.dfy` | machine integers, sequences, sums over permutations, symbolic hashes, limits and records |
| `Merkle.dfy`, `SparseMap.dfy` | Merkle openings, the sparse nullifier map and its in-place index shift |
| `Geofence.dfy`, `Segments.dfy`, `Policy.dfy`, `EventOpenings.dfy` | polygon checks, leaf evaluation, event batches and openings |
| `Registry.dfy`, `NoLotTwice.dfy` | the credential issuer, its catalog, histories with restarts and the flagship theorem |
| `RepeatedLots.dfy`, `SampleWorld.dfy`, `StaleRestart.dfy` | exactly when a lot can be accepted twice, an environment where it is, and what restoring an older save breaks |
| `Epoch.dfy`, `ReductionTree.dfy`, `ReductionExact.dfy`, `Archive.dfy`, `Authentication.dfy` | one aggregation node, the tree, exactly what it accepts, the recorded paths, climbing them |
| `Disclosure.dfy`, `EndToEnd.dfy` | bundles of openings; epochs of accepted runs |
| `Workload.dfy`, `Producer.dfy` | the paced cell: schedule split and parallel ingestion |
| `Preparation.dfy`, `Chronicle.dfy`, `Consumer.dfy` | its consumer: preparing a leaf, what has been taken, the accounts and the run |
| `E2Pipeline.dfy` | the bounded-queue benchmark and the analyzer's per-seed checks |
| `C3Air.dfy`, `Wilcoxon.dfy` | field constraints; the exact rank test |
| `Wire.dfy`, `EpochWire.dfy`, `AbiBridge.dfy` | byte formats, and how public bytes relate to symbolic words |

`dafny verify dfyconfig.toml` checks everything.

## How the model represents the system

- **Hashes** are constructors of one free datatype (`Digests.Digest`), one per domain tag, so equal
  digests mean equal arguments.  `Raw` is any other 32-byte word.  `Policy.Env` holds what this leaves
  open: the bytes of a digest, reading bytes back, and the Ed25519 predicate.  The issuer stores and
  compares owners and key commitments as 32-byte strings, as the source does.
- **Tree depths** (256 and 16 in the source) are parameters, tied to the digest width and to the 65,536
  credential slots.
- **A proof** is the public values its guest evaluated to; whether proving or anchoring succeeds is an
  input of the step that needs it.
- **State that the source updates in place** stays in classes, arrays and loops (`SparseNullifierMap`,
  `ShiftIndex`, `RegistryIssuer`, the archive's paths, `Consumer.Cell`, `ByteReader`, the trace matrix);
  their contracts equate the new state with a function of the old.
- **Threads** are state machines over atomic steps; a run is any sequence of enabled steps.
- The comment above the epoch ABI encoder (`crates/sp1-e2e/policy/src/epoch.rs:108`) lists nine fields;
  the code writes eleven words, as `contracts/README.md` says, and the model follows the code.

## Model

| member | source | states |
|---|---|---|
| `NoLotTwice.NoLotAcceptedTwice` | crates/sp1-e2e/policy/src/lib.rs:299-353 | no lot is accepted twice: along any chained run of accepted leaves whose certificate roots one issuer published, over any history of snapshots, saves and restarts from the latest save, all lot ids differ |
| `NoLotTwice.DistinctLots` | crates/sp1-e2e/policy/src/lib.rs:299-353 | the same for every issuer history, restarts from any bytes included, that certified no lot under two key commitments |
| `NoLotTwice.PersistenceGivesOneKey` | crates/sp1-e2e/policy/src/registry.rs:35-60 | a history in which ownership persists certified no lot under two key commitments |
| `StaleRestart.OneKeyExactly` | crates/sp1-e2e/policy/src/lib.rs:299-353 | exactly when a history is safe: in every valid environment no chained run of leaves it certified repeats a lot, if and only if it certified no lot under two key commitments |
| `RepeatedLots.NeverRepeatsExactly` | crates/sp1-e2e/policy/src/lib.rs:299-353 | exactly when a history is safe in one given environment: if and only if the signed and certified events it admits give each lot one nullifier index |
| `RepeatedLots.KeysDecideExactly` | crates/sp1-e2e/policy/src/lib.rs:299-353 | where every certified actor has signed events for its lot and no two keys share a nullifier for one lot, that is if and only if the certificates of each lot are opened by one key |
| `NoLotTwice.CredentialBindsOwnership` | crates/sp1-e2e/policy/src/lib.rs:327-329 | an accepted leaf's lot is owned in the issuer's catalog by the leaf's own identity and key commitment |
| `NoLotTwice.RunTracksSet` | crates/sp1-e2e/policy/src/lib.rs:332-353 | after n chained accepted leaves the current root is the full-tree root of their n nullifier indices, all different |
| `NoLotTwice.ChainTracksSet` | crates/sp1-e2e/policy/src/lib.rs:332-338 | any chain of steps that each prove an index unused and add it tracks exactly the set of indices, without repetition |
| `NoLotTwice.AcceptedLeafAddsUnused` | crates/sp1-e2e/policy/src/lib.rs:332-338 | an accepted leaf moves the root of any set of indices to the root of that set with its own, previously unused, index added |
| `NoLotTwice.PublishedNullifierIsAdded` | crates/sp1-e2e/policy/src/lib.rs:331-347 | the published nullifier word denotes an index outside the old set, and the published new root is the root with exactly that index added |
| `NoLotTwice.OwnershipIsWriteOnce` | crates/sp1-e2e/policy/src/registry.rs:35-60 | over every sequence of snapshots, saves and restarts from the latest save, an owner and key commitment once set never change |
| `NoLotTwice.OwnershipPersistsExactly` | crates/sp1-e2e/policy/src/registry.rs:22-60 | with restarts from arbitrary bytes, ownership persists if and only if every readable restart keeps the owners of the moment |
| `NoLotTwice.OlderSaveIsSafeExactly` | crates/sp1-e2e/policy/src/registry.rs:17-60 | when every restart restores some earlier save, ownership persists if and only if no lot was admitted between any restored save and its restart |
| `StaleRestart.LotAcceptedTwice` | crates/sp1-e2e/policy/src/registry.rs:22-60 | in every environment where the actors of two credentials of one lot have signed its events and the keys have different nullifiers, certifying one, restoring the save taken before and certifying the other lets the lot be accepted twice along one root chain |
| `StaleRestart.ReissueForgets` | crates/sp1-e2e/policy/src/registry.rs:17-60 | that history restores only the issuer's own earlier save, and ownership does not persist |
| `StaleRestart.ReissueIsSafeExactly` | crates/sp1-e2e/policy/src/registry.rs:22-60 | that history is nevertheless safe in every environment if and only if the two credentials name different lots or store one key commitment |
| `NoLotTwice.CatalogStaysBounded` | crates/sp1-e2e/policy/src/registry.rs:22-60 | whatever bytes the restarts read, the catalog never exceeds 65,536 entries |
| `EndToEnd.IssuedEpochAggregates` | crates/sp1-e2e/script/src/lib.rs:240-266 | every stretch of such a run that shares an epoch and a policy pair aggregates successfully at all levels, from the root of the indices used before it to the root with its own added, counting its lots and events, under the certificate root and polygon commitment of its inputs |
| `EndToEnd.EpochAggregates` | crates/sp1-e2e/script/src/lib.rs:240-266 | the same for any chained run with distinct lots, with the epoch reported |
| `EndToEnd.RunFacts` | crates/sp1-e2e/policy/src/lib.rs:299-353 | each leaf a chained run publishes is acceptable to the aggregator, commits to its own input and moves the root by exactly its own new index |
| `EndToEnd.BatchesDiffer` | crates/sp1-e2e/policy/src/lib.rs:528-542 | batches that open with events of different lots have different digests |
| `SparseNullifiers.SparseNullifierMap.constructor` | crates/sp1-e2e/policy/src/lib.rs:416-418 | the default map stands for the empty set |
| `SparseNullifiers.SparseNullifierMap.Root` | crates/sp1-e2e/policy/src/lib.rs:420-420 | the map's root is the root of the complete tree of the inserted set, so insertion order does not matter |
| `SparseNullifiers.SparseNullifierMap.EmptyPath` | crates/sp1-e2e/policy/src/lib.rs:421-430 | fails exactly on members and otherwise returns the complete tree's own sibling path |
| `SparseNullifiers.SparseNullifierMap.Insert` | crates/sp1-e2e/policy/src/lib.rs:431-442 | adds exactly the index when unused and keeps the refinement; on a used index no node changes |
| `SparseNullifiers.SparseNullifierMap.StoreBranch` | crates/sp1-e2e/policy/src/lib.rs:433-440 | the climbing loop leaves every stored node equal to the complete tree of the grown set |
| `SparseNullifiers.ShiftIndex` | crates/sp1-e2e/policy/src/lib.rs:447-450 | the in-place carry loop halves the big-endian number |
| `SparseNullifiers.SparseRoot` | crates/sp1-e2e/policy/src/lib.rs:480-494 | folding a path over big-endian bytes is the root the path claims for the number they denote |
| `SparseNullifiers.DefaultRoot` | crates/sp1-e2e/policy/src/lib.rs:388-394 | the default root is the root of the empty set |
| `SparseNullifiers.EmptyPathAdvancesRoot` | crates/sp1-e2e/policy/src/lib.rs:480-502 | a path that recomputes a set's root from the empty leaf proves the index absent, and from the used leaf gives the root with the index added |
| `SparseNullifiers.EmptyPathExistsIffUnused` | crates/sp1-e2e/policy/src/lib.rs:480-502 | such a path exists if and only if the index is unused |
| `SparseNullifiers.RootIdentifiesSet` | crates/sp1-e2e/policy/src/lib.rs:412-459 | two sets have the same root if and only if they are equal |
| `Merkle.OpeningIsExact` | crates/sp1-e2e/policy/src/lib.rs:461-494 | a path recomputes a tree's node if and only if its leaf and all its siblings are the tree's own |
| `Merkle.FoldPath` | crates/sp1-e2e/policy/src/lib.rs:461-478 | the path loop computes the claimed root |
| `Merkle.BuildLevels` | crates/sp1-e2e/policy/src/registry.rs:51-54 | the level loop builds every level of the complete tree |
| `Policy.SourceDepthsAreValid` | crates/sp1-e2e/policy/src/lib.rs:14-15 | depth 256, certificate depth 16 and 32-byte digests are an instance of the modelled parameters |
| `Policy.EvaluateInput` | crates/sp1-e2e/policy/src/lib.rs:299-353 | the evaluator with its event loop returns the specified result or the first error in source order |
| `Policy.CheckEvents` | crates/sp1-e2e/policy/src/lib.rs:305-330 | the loop with the carried timestamp returns the first failing event's error |
| `Policy.CheckEvent` | crates/sp1-e2e/policy/src/lib.rs:307-330 | one round of the loop, checks in source order |
| `Policy.EvaluateAcceptsExactly` | crates/sp1-e2e/policy/src/lib.rs:299-353 | acceptance holds if and only if polygon, event count, every event, strictly increasing timestamps over all pairs and the old root are right, and it publishes the specified values |
| `Policy.EvaluatePublishes` | crates/sp1-e2e/policy/src/lib.rs:340-352 | what acceptance publishes, field by field: the nullifier is the hash of lot and lot secret, the commitments are those of the input's own polygon and events, and the key appears only inside hashes |
| `Policy.EvaluateRefusesExactly` | crates/sp1-e2e/policy/src/lib.rs:299-338 | which error a refused input gets: the polygon's, the count's, that of the first event to blame, or the nullifier's |
| `Policy.NullifierIsUnique` | crates/sp1-e2e/policy/src/lib.rs:512-515 | two nullifiers are equal if and only if lot and key are |
| `Policy.EventLeavesDiffer` | crates/sp1-e2e/policy/src/lib.rs:528-533 | no two positions of an event tree hold the same leaf, padding included |
| `Policy.CertificateNames` | crates/sp1-e2e/policy/src/lib.rs:367-378 | a certificate leaf names the lot, certificate, actor and role of the event and the owner and key given |
| `Policy.EventsAcceptedExactly` | crates/sp1-e2e/policy/src/lib.rs:305-330 | all rounds pass if and only if every event is acceptable on its own and all timestamps strictly increase |
| `Policy.BuildEventTree` | crates/sp1-e2e/policy/src/lib.rs:528-539 | the padded event tree has every level of the complete tree of leaves and padding |
| `Policy.EventBatchRoot` | crates/sp1-e2e/policy/src/lib.rs:540-542 | the batch commitment is over the event count and the tree's root |
| `Registry.RegistryIssuer.Snapshot` | crates/sp1-e2e/policy/src/registry.rs:35-60 | all or nothing: exactly under the stated conditions the catalog moves to the admitted ownership, the requested credentials fill exactly their slots and the full certificate tree is built; on rejection nothing changes |
| `Registry.AdmitAll` | crates/sp1-e2e/policy/src/registry.rs:38-48 | the credential loop admits all credentials or stops at the first conflict |
| `Registry.AdmitKeepsOwners` | crates/sp1-e2e/policy/src/registry.rs:38-48 | admission never rewrites an owner and every admitted slot is backed by the resulting catalog |
| `Registry.AdmitExactly` | crates/sp1-e2e/policy/src/registry.rs:38-49 | requests are admitted if and only if all points are valid, all slots are free and different, and every lot is new or keeps its owner and key, within the request too; then exactly the requested slots and owners are recorded |
| `Registry.AdmitRefusesExactly` | crates/sp1-e2e/policy/src/registry.rs:40-46 | the first request that cannot follow those before it decides the error |
| `Registry.IssueExactly` | crates/sp1-e2e/policy/src/registry.rs:35-60 | a snapshot succeeds if and only if the request is short enough, the polygon valid, all requests admissible and the resulting catalog within 65,536 lots |
| `Registry.IssueRefusesExactly` | crates/sp1-e2e/policy/src/registry.rs:35-49 | which error a refused snapshot request gets |
| `Registry.CertificateLeavesDiffer` | crates/sp1-e2e/policy/src/registry.rs:50-53 | no two positions of the certificate tree hold the same leaf, padding included |
| `Registry.RowLayout` | crates/sp1-e2e/policy/src/registry.rs:20-20 | a catalog row is lot, owner and key commitment in this order |
| `Registry.BuildCertificateTree` | crates/sp1-e2e/policy/src/registry.rs:50-57 | certificate and padding leaves and all levels above them |
| `Registry.Root` | crates/sp1-e2e/policy/src/registry.rs:70-70 | the snapshot root is the root of its slots' tree |
| `Registry.CredentialPath` | crates/sp1-e2e/policy/src/registry.rs:71-82 | finds a credential exactly when one matches, and its path recomputes the snapshot root for the caller's event |
| `Registry.EncodeCatalog` | crates/sp1-e2e/policy/src/registry.rs:17-21 | writes the version, the count and one row per lot in ascending order |
| `Registry.DecodeCatalog` | crates/sp1-e2e/policy/src/registry.rs:22-33 | the row loop returns what `CatalogExactly` characterizes |
| `Registry.CatalogExactly` | crates/sp1-e2e/policy/src/registry.rs:22-33 | the reader accepts exactly the well-formed files of at most 65,536 rows that name different lots, in any order, and returns the catalog they list |
| `Registry.ResavedExactly` | crates/sp1-e2e/policy/src/registry.rs:17-33 | saving a restored catalog writes the same bytes if and only if the rows were in ascending order |
| `Registry.RestoredIsBounded` | crates/sp1-e2e/policy/src/registry.rs:22-33 | a restored catalog has as many lots as the file has rows, at most 65,536 |
| `Registry.CatalogReadsBack` | crates/sp1-e2e/policy/src/registry.rs:17-33 | restoring what was saved gives the catalog back, byte for byte |
| `EventOpenings.OpeningIsComplete` | crates/sp1-e2e/policy/src/lib.rs:516-548 | against the commitment of 8 to 64 events an opening verifies if and only if its count, slot, salt, bytes and path are the batch's own, padded trees included |
| `EventOpenings.VerifyEventOpening` | crates/sp1-e2e/policy/src/lib.rs:543-548 | the verifier decides exactly that predicate |
| `EventOpenings.OpenEvent` | crates/disclosure/src/lib.rs:246-262 | the path loop over the stored levels returns the slot's sibling path |
| `Epoch.Evaluate` | crates/sp1-e2e/policy/src/epoch.rs:136-230 | the evaluator loop returns the specified node result or its first error |
| `Epoch.NodeAcceptsExactly` | crates/sp1-e2e/policy/src/epoch.rs:136-230 | a node succeeds if and only if it has 1 to 8 acceptable, connected children with distinct digests and counts in range, and then reports first and last root, totals and ordered records |
| `Epoch.ReportIsBound` | crates/sp1-e2e/policy/src/epoch.rs:141-229 | the published commitment is over the published keys and policy pair and one record for each child with its kind, digest, roots, lots and events |
| `Epoch.PairsOfWords` | crates/sp1-e2e/policy/src/epoch.rs:156-157 | the policy pair is words 4 and 5 of a leaf and words 9 and 10 of an aggregate |
| `Epoch.AbsorbRefusals` | crates/sp1-e2e/policy/src/epoch.rs:153-216 | each error says what is wrong with the next child, in the order of the checks |
| `Epoch.FoldRefusesExactly` | crates/sp1-e2e/policy/src/epoch.rs:153-216 | a group's error is that of its first child that cannot follow those before it |
| `ReductionTree.ReduceLevel` | crates/sp1-e2e/script/src/lib.rs:250-263 | the inner loop evaluates consecutive groups of up to eight nodes |
| `ReductionTree.ReduceTree` | crates/sp1-e2e/script/src/lib.rs:240-266 | the outer loop terminates by shrinking n nodes to ceil(n/8) and returns the reduction's result; no leaves is an error |
| `ReductionTree.ReductionMeansList` | crates/sp1-e2e/script/src/lib.rs:240-266 | if the reduction succeeds, all leaves share epoch and policy pair and connect, and the root reports the first old root, the last new root and the flat totals |
| `ReductionTree.ReductionCountsLeaves` | crates/sp1-e2e/script/src/lib.rs:240-266 | for leaves the reported lot count is their number |
| `ReductionTree.ReadyChainReduces` | crates/sp1-e2e/policy/src/epoch.rs:136-230 | a nonempty connected chain of acceptable nodes with fresh roots, distinct digests and counts in range succeeds at every level |
| `ReductionExact.ReducesExactly` | crates/sp1-e2e/script/src/lib.rs:240-266 | the reduction succeeds if and only if the nodes are acceptable and linked, their totals are in range, and the aligned blocks of 1, 8, 64, ... nodes below each parent advance the root, count in range and give different digests |
| `ReductionExact.LevelExactly` | crates/sp1-e2e/script/src/lib.rs:250-264 | one level succeeds if and only if each aligned group of eight does, and holds the groups' aggregates in order |
| `ReductionExact.LevelRecords` | crates/sp1-e2e/policy/src/epoch.rs:136-230 | two lists under one policy pair have the same records if and only if the levels above them do |
| `ReductionTree.LevelKeepsTotals` | crates/sp1-e2e/policy/src/epoch.rs:153-216 | one level keeps lot and event totals and accepts only acceptable nodes |
| `ReductionTree.LevelKeepsLinkage` | crates/sp1-e2e/policy/src/epoch.rs:153-216 | one level is connected exactly as its leaves are, with the same ends |
| `Archive.AppendLevel` | crates/sp1-e2e/script/src/aggregation_archive.rs:9-51 | after all checks pass, pushes the public parent onto exactly the descendants below each child, at that child's position; on an error no entry changes |
| `Archive.CheckDescendants` | crates/sp1-e2e/script/src/aggregation_archive.rs:25-37 | accepts exactly nonempty, in-range, pairwise different descendant lists |
| `Archive.ArchiveLevel` | crates/sp1-e2e/script/src/aggregation_archive.rs:76-116 | one pass over the nodes: each leaf gains one level and climbs to the node above it |
| `Archive.ArchiveTree` | crates/sp1-e2e/script/src/aggregation_archive.rs:55-118 | succeeds exactly when the reduction does, and then every leaf's recorded path authenticates that leaf to exactly the root's public values; level k of leaf i's path selects child i / 8^k % 8, so no two leaves share all positions |
| `Archive.WideBoundsHeight` | crates/sp1-e2e/script/src/aggregation_archive.rs:74-117 | fewer than 2^64 leaves never need more than the 64 levels the verifier allows |
| `Authentication.VerifyAuthentication` | crates/disclosure/src/lib.rs:167-224 | the verifier loop returns the specified result or its first error |
| `Authentication.VerifiesExactly` | crates/disclosure/src/lib.rs:167-224 | a path verifies if and only if its header is right, it has 1 to 64 levels, the leaf is acceptable and each level evaluates and selects the node of the level below; the result is the last level's node |
| `Authentication.VerifiedRootPinsLeaf` | crates/disclosure/src/lib.rs:167-224 | two authentications to the same root values through the same child positions have the same depth and agree on every leaf field but the nullifier |
| `Authentication.RootPinsLeaf` | crates/disclosure/src/lib.rs:187-223 | the same for the climb itself, level by level |
| `Authentication.NodePinsChildren` | crates/sp1-e2e/policy/src/epoch.rs:140-216 | equal public values of two accepted nodes pin the children's number, records, epochs and policy pairs |
| `Authentication.NullifierWordIsFree` | crates/sp1-e2e/policy/src/epoch.rs:153-216 | the exception is real: replacing a leaf's nullifier word never changes a node's outcome |
| `Disclosure.ParseFields` | crates/disclosure/src/lib.rs:19-56 | selects exactly the listed indices, ascending and in range, and refuses unreadable, out-of-lot or eventless selections |
| `Disclosure.VerifyOpenings` | crates/disclosure/src/lib.rs:314-400 | accepts exactly authentic bundles whose distinct events, polygon and credential all match the leaf |
| `Disclosure.CheckEventOpenings` | crates/disclosure/src/lib.rs:328-351 | the loop over opened events: distinct indices, valid openings, right lot and epoch |
| `Disclosure.CheckCredential` | crates/disclosure/src/lib.rs:365-394 | a credential is accepted exactly when it belongs to an opened event and lies under the leaf's certificate root |
| `Disclosure.OpenBundle` | crates/disclosure/src/lib.rs:226-312 | refuses exactly a wrong lot, a bad or repeated selection, a failing witness or a failing authentication, and otherwise opens the polygon and the credential if and only if selected and exactly the selected events, in order |
| `Disclosure.ViewOpen` | crates/disclosure/src/bin/view-open.rs:27-30 | parsing fields and opening them succeeds if and only if the fields, the witness and the authentication are good, and discloses only what the fields name: an event, the polygon or the credential is opened if and only if some field names it |
| `Disclosure.EvaluatedLeafWords` | crates/sp1-e2e/policy/src/lib.rs:282-296 | the eleven words of an accepted leaf: what it commits to, the nullifier's hash and the policy's constants |
| `Disclosure.OpenedBundleShows` | crates/disclosure/src/lib.rs:226-400 | a bundle opened from an accepted witness passes every check but, possibly, the index list and the authentication |
| `Disclosure.ArchivedLeafOpens` | crates/disclosure/src/lib.rs:226-400 | with its archived path every parsed selection of an accepted witness opens and authenticates to the archive's root |
| `Disclosure.ShownFieldsBelong` | crates/disclosure/src/lib.rs:314-400 | whatever an accepted bundle opens is of its own lot and epoch, and its polygon has 3 to 32 vertices and the leaf's commitment |
| `Disclosure.BundleRevealsWitness` | crates/disclosure/src/lib.rs:314-400 | an accepted bundle for an evaluated leaf opens the witness's own lot, events, salts, paths and polygon |
| `Disclosure.CredentialRevealsOwner` | crates/disclosure/src/lib.rs:365-394 | under an issued root an opened credential is the registered one and names the witness's owner and key commitment |
| `Disclosure.BundlesAgree` | crates/disclosure/src/lib.rs:314-400 | two accepted bundles under one root and one choice of positions show the same epoch and the same polygon, whatever events they open |
| `Disclosure.SharedEventAgrees` | crates/disclosure/src/lib.rs:314-400 | where they open the same event index they also show the same lot, bytes, salt and path |
| `Workload.ShipmentSizes` | crates/sp1-e2e/script/src/bin/e4_real_cell.rs:830-842 | as few shipments as possible add up to the events, each of at least eight; all are full but the last two |
| `Workload.SplitShipment` | crates/sp1-e2e/script/src/bin/e4_real_cell.rs:788-823 | a shipment has ceil(size / 64) leaves, each of 8 to 64 events and all full but the last two |
| `Workload.SplitEpoch` | crates/sp1-e2e/script/src/bin/e4_real_cell.rs:786-826 | the leaves cover the epoch, and the marked ones end shipments that are ceil(events / shipment) in number and add up to the epoch |
| `Producer.Assign` | crates/sp1-e2e/script/src/bin/e4_real_cell.rs:651-663 | round-robin shares cover every leaf once in ascending order, epoch ends are recorded, and an empty epoch is refused |
| `Producer.ReleaseInOrder` | crates/sp1-e2e/script/src/bin/e4_real_cell.rs:642-765 | in every interleaving the emitted messages are a prefix of the leaves in order with each epoch end directly after its last leaf |
| `Producer.AtMostWindowWaits` | crates/sp1-e2e/script/src/bin/e4_real_cell.rs:634-751 | at most 64 acknowledged leaves ever wait for release and at most 32 messages wait for the consumer |
| `Producer.RunKeeps` | crates/sp1-e2e/script/src/bin/e4_real_cell.rs:642-765 | the invariant behind both holds after every run: until the coordinator leaves, a worker has sent exactly the leaves that are pending or released |
| `Producer.SomeoneCanMove` | crates/sp1-e2e/script/src/bin/e4_real_cell.rs:634-751 | an undisturbed state with anything left to release or deliver has an enabled productive step |
| `Producer.OwnerIsReady` | crates/sp1-e2e/script/src/bin/e4_real_cell.rs:634-640 | the owner of the next leaf to release is at that leaf, so the window cannot hold it back |
| `Producer.ProgressByOne` | crates/sp1-e2e/script/src/bin/e4_real_cell.rs:671-751 | every productive step is exactly one unit of a bounded measure |
| `Producer.UndisturbedExactly` | crates/sp1-e2e/script/src/bin/e4_real_cell.rs:671-751 | a step leaves an undisturbed state undisturbed if and only if it is productive |
| `Producer.UndisturbedRunsExactly` | crates/sp1-e2e/script/src/bin/e4_real_cell.rs:671-751 | a run ends undisturbed if and only if every step it took was productive |
| `Producer.UndisturbedRunsComplete` | crates/sp1-e2e/script/src/bin/e4_real_cell.rs:642-765 | an undisturbed run is bounded in length, and one that cannot go on has delivered the whole script |
| `Producer.JoinCannotHang` | crates/sp1-e2e/script/src/bin/e4_real_cell.rs:752-757 | after the coordinator leaves, every worker that has not ended can still move |
| `Producer.WorkersAlwaysAdvance` | crates/sp1-e2e/script/src/bin/e4_real_cell.rs:671-716 | any step of a worker is an advance towards a finite amount of work |
| `Producer.FinishedMeansAllSent` | crates/sp1-e2e/script/src/bin/e4_real_cell.rs:752-764 | before the deadline the producer succeeds if and only if the whole script was sent, and stops early if and only if leaves are missing without a failure read |
| `Producer.FailureIsReturnedExactly` | crates/sp1-e2e/script/src/bin/e4_real_cell.rs:717-751 | the producer returns a worker's failure if and only if it has read the report of one |
| `Producer.StopSpreads` | crates/sp1-e2e/script/src/bin/e4_real_cell.rs:634-711 | a worker that stops before its last leaf leaves the stop flag set |
| `Producer.OnlyInterruptsDisturb` | crates/sp1-e2e/script/src/bin/e4_real_cell.rs:634-751 | nobody gives up or is refused unless a post failed, the consumer stopped, the deadline passed or all results have ended |
| `Producer.AtMostOneSendAfterStop` | crates/sp1-e2e/script/src/bin/e4_real_cell.rs:704-715 | after a stop a worker sends at most one more acknowledgement |
| `Producer.AtMostOneReadAfterStop` | crates/sp1-e2e/script/src/bin/e4_real_cell.rs:719-751 | after a stop the coordinator reads at most one more result |
| `Preparation.PrepareInput` | crates/sp1-e2e/script/src/lib.rs:122-135 | refuses exactly when some event is not of the lot and epoch or has no credential, and prepared witnesses open the snapshot root |
| `Preparation.PrepareEvent` | crates/sp1-e2e/script/src/lib.rs:127-132 | the same for one event |
| `Preparation.PreparedIsAccepted` | crates/sp1-e2e/script/src/bin/e4_real_cell.rs:266-288 | a prepared witness against the map's own root and path is accepted if and only if its events pass the policy's own checks |
| `Consumer.Cell.constructor` | crates/sp1-e2e/script/src/bin/e4_real_cell.rs:192-257 | the accounts start balanced |
| `Consumer.Cell.ProveLeaf` | crates/sp1-e2e/script/src/bin/e4_real_cell.rs:266-298 | refuses exactly a used nullifier, uncertified events, a policy violation or a failed proof, in that order; a proved leaf leads from the map's root to the root with its index added |
| `Consumer.Cell.TakeLeaf` | crates/sp1-e2e/script/src/bin/e4_real_cell.rs:265-344 | the same verdict; on success books exactly the leaf and keeps everything consistent, on refusal changes nothing |
| `Consumer.Cell.BookLeaf` | crates/sp1-e2e/script/src/bin/e4_real_cell.rs:292-297 | after a proof the two later nullifier checks never fail |
| `Consumer.Cell.CommitAcknowledged` | crates/sp1-e2e/script/src/bin/e4_real_cell.rs:385-388 | draining adds every acknowledged count to the committed events |
| `Consumer.Cell.CloseEpoch` | crates/sp1-e2e/script/src/bin/e4_real_cell.rs:345-421 | books the epoch exactly when leaves are pending, the tree and prover succeed, the anchor reports the map's root and the receipt is complete; an incomplete receipt fails only after the totals were committed |
| `Consumer.EpochAggregates` | crates/sp1-e2e/script/src/bin/e4_real_cell.rs:345-361 | at an epoch's end of a proper schedule the pending leaves are never empty and their tree always succeeds |
| `Chronicle.PendingReduces` | crates/sp1-e2e/script/src/bin/e4_real_cell.rs:345-361 | the leaves proved since the last epoch aggregate if and only if they name one epoch |
| `Chronicle.EpochIsPending` | crates/sp1-e2e/script/src/bin/e4_real_cell.rs:345-361 | where the schedule ends an epoch, the pending leaves are exactly that epoch's |
| `Chronicle.OneIndexEach` | crates/sp1-e2e/script/src/bin/e4_real_cell.rs:266-298 | as many used nullifiers as leaves taken means that all lots taken are different |
| `Consumer.Cell.Consume` | crates/sp1-e2e/script/src/bin/e4_real_cell.rs:258-428 | all messages are taken unless one fails or time runs out; on a proper schedule the first arrival that does not succeed decides the outcome and the reason |
| `Consumer.Cell.Run` | crates/sp1-e2e/script/src/bin/e4_real_cell.rs:258-443 | complete if and only if nothing failed, time did not run out and the whole schedule was taken, saturated if and only if nothing failed and time ran out, each characterized by the arrivals; when complete, every total is the offered one, the samples are those of the scheduled epochs, all under the run's policy, all lots differ and the last anchored root is that of their nullifiers |
| `Consumer.LeafKeepsBalance` | crates/sp1-e2e/script/src/bin/e4_real_cell.rs:336-342 | committed plus pending stays equal to what was taken, and the roots stay connected |
| `Consumer.EpochKeepsBalance` | crates/sp1-e2e/script/src/bin/e4_real_cell.rs:385-419 | closing an epoch keeps the balance, and the aggregate reports exactly the sample's events and lots |
| `Consumer.AggregateUnderPolicy` | crates/sp1-e2e/script/src/bin/e4_real_cell.rs:345-412 | an aggregate of leaves under the run's certificate root and polygon commitment reports that pair |
| `Chronicle.ShipmentsAreEnds` | crates/sp1-e2e/script/src/bin/e4_real_cell.rs:222-229 | the shipments counted are the leaves that end one |
| `Preparation.LeafRefusals` | crates/sp1-e2e/script/src/bin/e4_real_cell.rs:262-297 | each refusal of a leaf names its cause, in the order of the checks |
| `Consumer.EpochsConnect` | crates/sp1-e2e/script/src/bin/e4_real_cell.rs:345-421 | each anchored epoch starts from its predecessor's new root |
| `Consumer.AggregateSpans` | crates/sp1-e2e/script/src/bin/e4_real_cell.rs:345-361 | the aggregate of the pending leaves spans their first and last root and counts their events |
| `Consumer.CompleteExactly` | crates/sp1-e2e/script/src/bin/e4_real_cell.rs:439-443 | counting all epochs is having taken the whole schedule, which leaves nothing pending |
| `Consumer.Offered` | crates/sp1-e2e/script/src/bin/e4_real_cell.rs:219-228 | the offered totals are those of the schedule |
| `E2Pipeline.LotIdsAreUnique` | crates/sp1-e2e/script/src/bin/e2_real_benchmark.rs:892-904 | no two lots of any runs and seeds share an id |
| `E2Pipeline.PrepareLots` | crates/sp1-e2e/script/src/bin/e2_real_benchmark.rs:635-663 | succeeds if and only if every lot has a packed id and 8 to 64 events and the events fit the seed's million and 64 bits; lots then carry their packed ids and consecutive event ids |
| `E2Pipeline.EventIdsAreUnique` | crates/sp1-e2e/script/src/bin/e2_real_benchmark.rs:635-663 | event ids of different lots, seeds or runs never meet |
| `E2Pipeline.SendBeforeDeadline` | crates/sp1-e2e/script/src/bin/e2_real_benchmark/queue.rs:17-40 | the first decisive round of the retry loop decides, stop is seen before the queue and the queue before the deadline, and a failed send returns the same item |
| `E2Pipeline.RunKeeps` | crates/sp1-e2e/script/src/bin/e2_real_benchmark.rs:450-762 | the accounting invariant holds after every interleaving of producer and consumer |
| `E2Pipeline.ReceivedNeverRunsAhead` | crates/sp1-e2e/script/src/bin/e2_real_benchmark.rs:450-452 | at every moment received is at most queued plus one and the queue is within capacity |
| `E2Pipeline.RunsEndJoined` | crates/sp1-e2e/script/src/bin/e2_real_benchmark.rs:543-569 | both joins return: every run is bounded in length, and no step is left if and only if both threads have finished |
| `E2Pipeline.ProducerCannotHang` | crates/sp1-e2e/script/src/bin/e2_real_benchmark.rs:665-762 | an unfinished producer can always move, after a stop without waiting for the queue |
| `E2Pipeline.ConsumerCannotHang` | crates/sp1-e2e/script/src/bin/e2_real_benchmark.rs:450-542 | once the producer has finished, a consumer that has not left can move |
| `E2Pipeline.WriteUnrecorded` | crates/sp1-e2e/script/src/bin/e2_real_benchmark.rs:570-594 | exactly the planned lots without a row get one, with the recorded failure stage |
| `E2Pipeline.CloseSeed` | crates/sp1-e2e/script/src/bin/e2_real_benchmark.rs:566-618 | one row for each planned lot, a terminal record the analyzer accepts, complete if and only if there are lots and all are anchored, failed if and only if some row names a failed thread, and not offered exactly for the lots that were not fully committed |
| `E2Pipeline.Fates` | crates/sp1-e2e/script/src/bin/e2_real_benchmark.rs:566-595 | a lot without a row of its own is reported by where the two threads left it: refused by the queue, left in it, or stopped while posting, reading or sending |
| `E2Pipeline.NotOfferedExactly` | crates/sp1-e2e/script/src/bin/e2_real_benchmark.rs:589-593 | the rows that say not offered are exactly those of the lots not fully committed |
| `E2Pipeline.FailedRowNamesStep` | crates/sp1-e2e/script/src/bin/e2_real_benchmark.rs:545-556 | a failing consumer's last row names the stage of the step that failed, for the lot it held |
| `E2Pipeline.PartialExactly` | crates/sp1-e2e/script/src/bin/e2_real_benchmark.rs:597-618 | a seed ends partial if and only if no thread failed and it has no lots or the queue refused some |
| `E2Pipeline.EarlyEndHasCause` | crates/sp1-e2e/script/src/bin/e2_real_benchmark.rs:679-757 | the producer leaves lots unoffered only after one of the threads has failed |
| `E2Pipeline.MaxDepthIsGreatest` | crates/sp1-e2e/script/src/bin/e2_real_benchmark.rs:731-745 | the recorded maximum queue depth is the greatest depth any step of the run counted |
| `E2Pipeline.AnalyzerAcceptsExactly` | scripts/e2_real_analyze.py:210-225 | the analyzer's checks, spelled out |
| `E2Pipeline.SaturatedRows` | scripts/e2_real_analyze.py:215-220 | the saturated counter equals the number of rows that say the queue was saturated |
| `E2Pipeline.OkRows` | scripts/e2_real_analyze.py:215-220 | the anchored counters equal the anchored rows and their events |
| `E2Pipeline.LotsDescend` | scripts/e2_real_analyze.py:221-225 | after the join the lot counters descend from scheduled to anchored |
| `E2Pipeline.EventsDescend` | scripts/e2_real_analyze.py:221-225 | after the join the event counters descend from scheduled to anchored |
| `E2Pipeline.FailureShows` | crates/sp1-e2e/script/src/bin/e2_real_benchmark.rs:543-569 | a failed thread always leaves a row that is not anchored |
| `C3Air.Sound` | crates/e1-bench/src/templates.rs:1604-1669 | a satisfying trace has exactly `events` real rows, as a prefix, and its integer readings and time offsets form a lot that validation accepts |
| `C3Air.Complete` | crates/e1-bench/src/templates.rs:1540-1669 | whenever validation accepts, the built trace satisfies every constraint, padding rows included |
| `C3Air.ValidateC3` | crates/e1-bench/src/templates.rs:1504-1538 | accepts exactly valid lots |
| `C3Air.C3Trace` | crates/e1-bench/src/templates.rs:1540-1576 | fills the row-major matrix with the honest rows |
| `C3Air.RowsExactly` | crates/e1-bench/src/templates.rs:1541-1541 | the height of the trace is the least power of two that holds the events and the proof system's minimum |
| `C3Air.FillBits` | crates/e1-bench/src/templates.rs:1578-1586 | writes exactly the 32 bits and nothing else |
| `C3Air.AssertRange` | crates/e1-bench/src/templates.rs:1655-1669 | its constraints vanish if and only if the value is recomposed from 32 bit columns |
| `C3Air.Eval` | crates/e1-bench/src/templates.rs:1604-1653 | the pushed constraints vanish if and only if the row, first-row, transition and last-row conditions hold |
| `C3Air.RealsArePrefix` | crates/e1-bench/src/templates.rs:1631-1640 | real rows are a nonempty prefix |
| `C3Air.CountColumn` | crates/e1-bench/src/templates.rs:1631-1641 | the count column is the number of real rows so far |
| `C3Air.TimestampColumn` | crates/e1-bench/src/templates.rs:1637-1645 | each real timestamp is the first one plus the offset, which stays below rows times 2^32 |
| `C3Air.NoZeroDivisors` | crates/e1-bench/src/templates.rs:1622-1669 | a prime field has no zero divisors, so a bit constraint leaves only zero and one |
| `C3Air.BitsRecompose` | crates/e1-bench/src/templates.rs:1661-1669 | the low bits recompose to the value modulo the power of two |
| `Geofence.ValidatePolygon` | crates/sp1-e2e/policy/src/lib.rs:562-590 | accepts exactly 3 to 32 valid vertices forming a simple polygon of nonzero area |
| `Geofence.PolygonRefusals` | crates/sp1-e2e/policy/src/lib.rs:562-590 | which error a refused polygon gets |
| `Geofence.AdjacentExactly` | crates/sp1-e2e/policy/src/lib.rs:619-621 | the edges exempt from the crossing check are those that share a vertex |
| `Geofence.IsStrictlyOutside` | crates/sp1-e2e/policy/src/lib.rs:592-617 | outside means on no edge and an even number of edges crossed |
| `Geofence.ContainsStrict` | crates/e1-bench/src/epcis.rs:74-102 | strictly inside, boundary and strictly outside split the plane |
| `Geofence.RotationInvariant` | crates/sp1-e2e/policy/src/lib.rs:592-617 | the verdict does not depend on the starting vertex |
| `Geofence.ReversalInvariant` | crates/sp1-e2e/policy/src/lib.rs:592-617 | nor on the direction of the vertices |
| `Geofence.PaddingInvariant` | crates/e1-bench/src/templates.rs:897-904 | nor on padding with repeats of the last vertex |
| `Geofence.OutsideBoxIsOutside` | crates/sp1-e2e/policy/src/lib.rs:592-617 | a point outside the bounding box is always strictly outside |
| `Geofence.CircuitCrossingAgrees` | crates/e1-bench/src/templates.rs:1076-1084 | the two crossing tests differ exactly on a downward edge through the point, never off the boundary |
| `Geofence.CircuitVerdictAgrees` | crates/e1-bench/src/templates.rs:1076-1084 | off the boundary the circuit's crossing count decides the policy's verdict |
| `Geofence.RaysAgree` | crates/sp1-e2e/policy/src/lib.rs:592-617 | off the boundary the ray to the left of the point decides the verdict as the ray to the right does |
| `Segments.SegmentsIntersectExactly` | crates/sp1-e2e/policy/src/lib.rs:638-648 | the integer test holds if and only if the two closed segments share a point of the plane, degenerate and collinear segments included |
| `Segments.CrossesRightExactly` | crates/sp1-e2e/policy/src/lib.rs:598-617 | an edge is crossed if and only if it changes sides of the point's latitude and, level with the point, is east of it |
| `Segments.OnSegmentExactly` | crates/sp1-e2e/policy/src/lib.rs:630-636 | a point is on a closed segment if and only if it is some fraction of the way along it |
| `Segments.SimplePolygonExactly` | crates/sp1-e2e/policy/src/lib.rs:562-590 | an accepted polygon is one of nonzero area without zero-length edges in which edges that are not neighbours never meet |
| `Geofence.OrientationFits56Bits` | crates/e1-bench/src/templates.rs:103-103 | for valid points the orientation is below 2^56 in magnitude |
| `Wilcoxon.WilcoxonExact` | scripts/e3_analyze.py:33-58 | returns exactly the fraction of all 2^n sign assignments at least as extreme as the observed one |
| `Wilcoxon.DoubledRanks` | scripts/e3_analyze.py:37-47 | the ranking loop gives tie-averaged doubled ranks, which sum to n(n+1) |
| `Wilcoxon.SortByMagnitude` | scripts/e3_analyze.py:37-37 | a permutation of the indices in ascending magnitude |
| `Wilcoxon.AddRank` | scripts/e3_analyze.py:53-55 | one round adds every count moved up by the rank |
| `Wilcoxon.Distribution` | scripts/e3_analyze.py:51-56 | the dynamic program counts, for every rank sum, the sign assignments that reach it |
| `Wilcoxon.CountExtreme` | scripts/e3_analyze.py:57-58 | the final sum counts exactly the assignments whose smaller side is at most the observed one |
| `Wilcoxon.OneMoreRank` | scripts/e3_analyze.py:52-56 | the assignments of one more rank are those without it and those with it |
| `Wilcoxon.SignsCount` | scripts/e3_analyze.py:58-58 | there are 2^n sign assignments |
| `Wilcoxon.PValueInRange` | scripts/e3_analyze.py:33-58 | the p-value is positive and at most one |
| `Wilcoxon.SwapInvariant` | scripts/e3_analyze.py:33-58 | swapping the samples never changes the p-value |
| `Wilcoxon.NonzeroDifferences` | scripts/e3_analyze.py:34-34 | the nonzero paired differences in order |
| `Wire.ByteReader.Read` | crates/sp1-e2e/policy/src/lib.rs:678-689 | takes the next bytes and advances, or leaves the offset alone |
| `Wire.EventExactly` | crates/sp1-e2e/policy/src/lib.rs:81-116 | 86 bytes decode to an event if and only if they are its canonical bytes and its point is valid |
| `Wire.PolicyReadsTheSameEvent` | crates/sp1-e2e/policy/src/lib.rs:98-116 | the evaluator's decoder and the byte-level one agree |
| `Wire.EncodeInput` | crates/sp1-e2e/policy/src/lib.rs:147-183 | refuses an invalid polygon or event count and otherwise writes the encoding |
| `Wire.DecodeInput` | crates/sp1-e2e/policy/src/lib.rs:185-251 | the reader returns the specified input or its first error |
| `Wire.InputExactly` | crates/sp1-e2e/policy/src/lib.rs:146-251 | bytes decode to an input if and only if they are that input's encoding |
| `Wire.InputLayout` | crates/sp1-e2e/policy/src/lib.rs:147-183 | the fields of an input in wire order |
| `Wire.InputRefusals` | crates/sp1-e2e/policy/src/lib.rs:185-251 | a refused input gets the polygon's own error or, for anything else that is wrong, an invalid input |
| `EpochWire.WordExactly` | crates/sp1-e2e/policy/src/epoch.rs:126-132 | a word reads as an integer if and only if it is the padded big-endian number |
| `EpochWire.LeafExactly` | crates/sp1-e2e/policy/src/lib.rs:268-296 | 352 bytes decode to leaf values if and only if they are their ABI encoding |
| `EpochWire.AbiEncode` | crates/sp1-e2e/policy/src/lib.rs:282-296 | the in-place writer produces that encoding |
| `EpochWire.EncodeEpochInput` | crates/sp1-e2e/policy/src/epoch.rs:47-64 | refuses a bad fan-in and otherwise writes the encoding |
| `EpochWire.DecodeEpochInput` | crates/sp1-e2e/policy/src/epoch.rs:66-100 | the cursor loop returns the specified input |
| `EpochWire.EpochInputExactly` | crates/sp1-e2e/policy/src/epoch.rs:46-100 | bytes decode to an input if and only if they are its encoding and every child is canonical |
| `EpochWire.PublishedIsCanonical` | crates/sp1-e2e/policy/src/epoch.rs:107-124 | whatever a node publishes, and every encoded leaf, is a canonical child of the next node |
| `EpochWire.RoundTripExactly` | crates/sp1-e2e/policy/src/epoch.rs:46-100 | encoding then decoding returns the input if and only if its children are canonical |
| `AbiBridge.LeafIsRendered` | crates/sp1-e2e/policy/src/lib.rs:282-296 | the byte words of a leaf are the word-by-word rendering of its symbolic words |
| `AbiBridge.NodeIsRendered` | crates/sp1-e2e/policy/src/epoch.rs:107-124 | and those of a node of its symbolic words |
| `AbiBridge.PublishedIsReadBack` | crates/sp1-e2e/policy/src/epoch.rs:136-180 | the bytes a leaf or a node publishes are read by the next node as its symbolic words |
| `AbiBridge.AcceptedInputIsReadBack` | crates/sp1-e2e/policy/src/epoch.rs:46-230 | an input whose children the aggregator accepts is decoded from its own encoding |

## Left out

- Hash collisions, and the internals of SHA-256, HMAC, Poseidon2 and Ed25519: hashes are symbolic and a signature is an opaque predicate.
- Proof systems: SP1 and Groth16 proving and verifying, Plonky3 and FRI recursion, the guest programs' entry points, verification-key digests as anything but given words.
- The on-chain contracts beyond the root an anchor reports back; of a receipt's gas and calldata only whether they are there.
- JSON, hexadecimal strings and command-line parsing: disclosure and archive records hold the values their strings decode to, and a selection's fields are given already split.
- Files, HTTP, the Fabric gateway and chaincode, private archives on disk, and evidence writing; a post or a read succeeds or fails as an input.
- Clocks: a deadline may pass at any step, a due time only delays a post, and latencies, percentiles, bootstrap intervals and Poisson arrivals are not modelled.
- Randomness and the benchmark's derivations of keys, nonces, owners and event contents, which are parameters.
- Weak memory: a shared atomic is read as its latest value.  A thread that saw no stop may still act after one was set, because looking and acting are separate steps; a stale read of the released count only makes a worker wait longer.
- E2Pipeline.RunKeeps: a bounded send may time out in any state, because its deadline is a clock; `SendBeforeDeadline` models the retry loop itself.
- Thread panics, and failures to write evidence, in the end-to-end benchmark.
- The other circuits (C1, C2, C4, C5) and the wrapper; of C1 only the crossing test, the vertex padding and the orientation range.
- Evidence validators that compare long lists of fields, the JSON event mapper, and the plotting and job scripts.
- The adapted-token and baseline modes of the paced cell, and its fixed-size local smoke checks.
- NoLotTwice.NoLotAcceptedTwice: restarts read the latest save; `StaleRestart.LotAcceptedTwice` shows what fails without that, `StaleRestart.OneKeyExactly` gives the exact condition on a history and `DistinctLots` the theorem under it.  Persisting ownership (`OwnershipPersistsExactly`, `OlderSaveIsSafeExactly`) is sufficient and, as `ReissueIsSafeExactly` shows, not necessary.
- Authentication.VerifiedRootPinsLeaf: the nullifier word of the leaf is not pinned, because the epoch commitment does not absorb it; `NullifierWordIsFree` proves that.
- C3Air.Sound: the modulus is any prime above 2^33 that fits in 64 bits, with rows times 2^32 below it; that the Goldilocks modulus is prime is not proved.
- Wilcoxon.WilcoxonExact: samples and the quotient are exact reals; floating-point rounding is not modelled.
- E2Pipeline.PrepareLots: the events' contents are not modelled, only their number and ids, and lots of one seed are assumed to arrive with their own ordinals.
- Consumer.Cell.CloseEpoch: the source ends the run on an error; the model keeps the accounts as the error left them and promises nothing further about the root chain.
- Producer.Assign: the events of a leaf are posted by the workers' steps; the assignment itself records only indices.
- Workload.SplitEpoch: due times, lot, shipment and event ids of the schedule are not modelled.
