/** render-core: verify_attestation, with the cell looked up in the store. */
module Attestations {
  import opened Bytes
  import opened Text
  import opened Json
  import opened CanonicalJson
  import opened RenderTools
  import opened Substations
  import opened Provenance
  import opened EpochTables
  import opened Regions

  datatype Attestation = Attestation(
    cell: U64, epoch: int, attesterPk: Digest, claim: Json, claimHash: Digest, signature: Bytes, expiresAt: Option<int>)

  datatype AttestationVerdict = AttestationVerdict(
    signatureValid: bool, claimHashValid: bool, cellExists: bool, notExpired: bool, verified: bool)

  datatype DbFailure = DbFailure(message: string)

  function CellOf(tenant: TenantId, a: Attestation): CellKey {
    CellKey(tenant, AsI64(a.cell), a.epoch)
  }

  /** The key's owner vouches for the claim, about a cell the tenant has, and still does. */
  predicate Vouched(h: HashFn, ed25519: VerifyFn, table: CellMap, tenant: TenantId, a: Attestation, now: int) {
    && a.claimHash == ContentHash(h, a.claim)
    && ed25519(a.attesterPk, a.claimHash, a.signature)
    && CellOf(tenant, a) in table
    && (a.expiresAt.Some? ==> a.expiresAt.value > now)
  }

  /**
   scan is what the database answers: its rows in some order, or a failure, which is passed on. Each flag
   reports its own check.
   */
  method VerifyAttestation(h: HashFn, ed25519: VerifyFn, scan: Result<seq<Row>, DbFailure>, ghost table: CellMap,
                           tenant: TenantId, a: Attestation, now: int)
      returns (out: Result<AttestationVerdict, DbFailure>)
    requires SerdeValue(a.claim)
    requires scan.Ok? ==> ScanOf(scan.value, table)
    ensures scan.Err? ==> out == Err(scan.error)
    ensures scan.Ok? ==> out.Ok? && (out.value.verified <==> Vouched(h, ed25519, table, tenant, a, now))
    ensures out.Ok? ==>
      && (out.value.verified <==>
            out.value.signatureValid && out.value.claimHashValid && out.value.cellExists && out.value.notExpired)
      && (out.value.claimHashValid <==> a.claimHash == h(Utf8(Canonical(Gns, a.claim))))
      && (out.value.signatureValid <==> ed25519(a.attesterPk, a.claimHash, a.signature))
      && (out.value.cellExists <==> CellKey(tenant, AsI64(a.cell), a.epoch) in table)
      && (out.value.notExpired <==> a.expiresAt.Some? ==> a.expiresAt.value > now)
  {
    var canonical := CanonicalJsonOf(a.claim);
    var claimHashValid := h(Utf8(canonical)) == a.claimHash;
    var signatureValid := ed25519(a.attesterPk, a.claimHash, a.signature);
    if scan.Err? {
      return Err(scan.error);
    }
    var found := GetCellState(scan.value, tenant, a.cell, Some(a.epoch));
    PinnedCellExists(scan.value, table, tenant, a.cell, a.epoch);
    var cellExists := found.Some?;
    var notExpired := match a.expiresAt { case None => true case Some(t) => t > now };
    var verified := claimHashValid && signatureValid && cellExists && notExpired;
    out := Ok(AttestationVerdict(signatureValid, claimHashValid, cellExists, notExpired, verified));
  }

  lemma PinnedCellExists(scan: seq<Row>, table: CellMap, tenant: TenantId, cell: U64, epoch: int)
    requires ScanOf(scan, table)
    ensures GetCellState(scan, tenant, cell, Some(epoch)).Some? <==> CellKey(tenant, AsI64(cell), epoch) in table
  {
    CellStateIsLatest(scan, table, tenant, cell, Some(epoch));
    var found := GetCellState(scan, tenant, cell, Some(epoch));
    if found.Some? {
      assert found.value.0 == CellKey(tenant, AsI64(cell), epoch);
    }
  }

  /** Two attestations verified anywhere, for anyone, with one claim hash make one claim, or their texts collide. */
  lemma OneClaimHashOneClaim(h: HashFn, ed25519: VerifyFn, table: CellMap, tenant: TenantId, a: Attestation, now: int,
                             table': CellMap, tenant': TenantId, b: Attestation, now': int)
    requires SerdeValue(a.claim) && SerdeValue(b.claim)
    requires Vouched(h, ed25519, table, tenant, a, now) && Vouched(h, ed25519, table', tenant', b, now')
    requires !Collision(h, (Utf8(Canonical(Gns, a.claim)), Utf8(Canonical(Gns, b.claim))))
    ensures a.claimHash == b.claimHash <==> Same(Gns, a.claim, b.claim)
  {
    ContentHashIdentifies(h, a.claim, b.claim);
  }
}
