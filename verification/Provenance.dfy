/** The audit bundle and the verdict an offline verifier owes on it. */
module Provenance {
  import opened Bytes
  import opened Json
  import opened Merkle
  import opened EpochTree

  type TenantId = string

  /** Ed25519 verification with the key, the message and the signature as arguments. */
  type VerifyFn = (Bytes, Bytes, Bytes) -> bool

  /** A row of epochs. The primary key (tenant_id, epoch_id) is EpochKey. */
  datatype EpochRow = EpochRow(sealedAt: int, merkleRoot: Digest, parentRoot: Option<Digest>, cellCount: nat)

  datatype EpochKey = EpochKey(tenant: TenantId, epoch: int)

  /** A row of cell_states. The primary key (tenant_id, h3_cell, epoch_id) is CellKey. */
  datatype CellRow = CellRow(identityPk: Digest, payload: Json, contentHash: Digest, signature: Bytes)

  datatype CellKey = CellKey(tenant: TenantId, h3: int, epoch: int)

  datatype Bundle = Bundle(cellKey: CellKey, cell: CellRow, proof: seq<Digest>, leafIndex: nat, epoch: EpochRow)

  /** Both checks of the offline verifiers: the writer's signature and the path to the sealed root. */
  predicate Accepted(h: HashFn, ed25519: VerifyFn, b: Bundle) {
    && ed25519(b.cell.identityPk, b.cell.contentHash, b.cell.signature)
    && Fold(NodeHash(h), b.cell.contentHash, b.leafIndex, b.proof) == b.epoch.merkleRoot
  }
}
