/**
 * Symbolic 32-byte words.
 *
 * Every domain-tagged SHA-256 or HMAC call of the policy crate is one constructor, so two digests
 * are equal exactly when the same hash was applied to the same arguments.  `Raw` is any other
 * 32-byte word, given by the big-endian number it denotes.
 */
module Digests {
  import opened Primitives

  /** The three binary Merkle trees; their node hashes carry different domain tags. */
  datatype Domain = NullifierTree | CertificateTree | EventTree

  datatype PointE6 = PointE6(latitudeE6: I32, longitudeE6: I32)

  datatype Digest =
    | Raw(word: nat)
    | Node(domain: Domain, left: Digest, right: Digest)
    | NullifierLeaf(used: bool)
    | KeyCommitment(key: Digest)
    | LotSecret(secretKey: Digest, secretLot: U64)
    | NullifierHash(lot: U64, secret: Digest)
    | CertificateLeaf(certifiedLot: U64, owner: Digest, keyCommitment: Digest, slot: nat,
                      certificateId: U64, actorKey: Digest, role: U8)
    | CertificatePadding(padSlot: nat)
    | EventSalt(nonce: Digest, saltIndex: nat)
    | EventLeaf(eventIndex: nat, salt: Digest, eventBytes: Bytes)
    | EventPadding(padIndex: nat)
    | EventBatch(eventCount: nat, root: Digest)
    | PolygonCommitment(polygonNonce: Digest, vertices: seq<PointE6>)
    | EpochCommitment(leafVk: Digest, aggregateVk: Digest, certificateRoot: Digest,
                      polygonCommitment: Digest, records: seq<ChildRecord>)

  /** What an epoch commitment absorbs for each ordered child. */
  datatype ChildRecord = ChildRecord(aggregate: bool, digest: Digest, oldRoot: Digest, newRoot: Digest,
                                     lots: nat, events: nat)
}
