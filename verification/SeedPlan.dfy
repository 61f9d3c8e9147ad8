/** How the seeder computes what it writes: from OSM features to signed rows in leaf order. */
module SeedPlan {
  import opened Bytes
  import opened Text
  import opened Json
  import opened CanonicalJson
  import opened RenderTools
  import opened Substations
  import opened Provenance
  import opened EpochTables
  import opened EpochTheorems

  /**
   Everything a seeder run is a function of: the hash, each tenant's features, the telemetry payload of a
   substation at an epoch, and Ed25519.
   */
  datatype World = World(
    h: HashFn,
    features: TenantId -> seq<Feature>,
    payload: (Substation, int) -> Json,
    publicKey: Digest -> Digest,
    sign: (Digest, Digest) -> Bytes,
    ed25519: Provenance.VerifyFn)

  /** What is signed with a secret key verifies with its public key, and payloads are JSON
      objects as serde keeps them. */
  ghost predicate ValidWorld(w: World) {
    && (forall secret: Digest, message: Digest :: w.ed25519(w.publicKey(secret), message, w.sign(secret, message)))
    && (forall s: Substation, epoch: int :: Unique(w.payload(s, epoch)))
  }

  /** Payloads are values that a Rust program can hold. */
  ghost predicate SerdePayloads(w: World) {
    forall s: Substation, epoch: int :: SerdeValue(w.payload(s, epoch))
  }

  /** The signing key is the hash of the OSM id, so a substation has one identity in every epoch. */
  function SecretOf(w: World, s: Substation): Digest {
    w.h(Utf8(s.osmId))
  }

  function RowOf(w: World, tenant: TenantId, s: Substation, epoch: int): Row {
    var contentHash := ContentHash(w.h, w.payload(s, epoch));
    (CellKey(tenant, Signed(s), epoch),
     CellRow(w.publicKey(SecretOf(w, s)), w.payload(s, epoch), contentHash, w.sign(SecretOf(w, s), contentHash)))
  }

  function RowsOf(w: World, tenant: TenantId, order: seq<Substation>, epoch: int): (rows: seq<Row>)
    ensures |rows| == |order|
    ensures forall i :: 0 <= i < |rows| ==> rows[i] == RowOf(w, tenant, order[i], epoch)
  {
    seq(|order|, i requires 0 <= i < |order| => RowOf(w, tenant, order[i], epoch))
  }

  function PlannedRows(w: World, tenant: TenantId, epoch: int): seq<Row> {
    RowsOf(w, tenant, LeafOrder(Build(w.features(tenant))), epoch)
  }

  function PlanOf(w: World): Plan {
    Plan(w.h, (tenant: TenantId, epoch: int) => PlannedRows(w, tenant, epoch))
  }

  lemma PlannedRowsOrdered(w: World, tenant: TenantId, epoch: int)
    ensures WellOrdered(PlannedRows(w, tenant, epoch), tenant, epoch)
  {
    LeafOrderOfBuild(w.features(tenant));
  }

  /** The seeder's rows are a plan the store's guarantees apply to. */
  lemma PlanIsValid(w: World)
    requires ValidWorld(w)
    ensures ValidPlan(PlanOf(w)) && SignedPlan(PlanOf(w), w.ed25519)
  {
    forall tenant, epoch ensures WellOrdered(PlanOf(w).rows(tenant, epoch), tenant, epoch) {
      PlannedRowsOrdered(w, tenant, epoch);
    }
  }
}
