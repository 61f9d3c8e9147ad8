/** The audit trail from end to end: from a seeder's features to the verdict in a browser, and back. */
module Audit {
  import opened Bytes
  import opened Text
  import opened Json
  import opened CanonicalJson
  import opened RenderTools
  import opened EpochTree
  import opened Merkle
  import opened Provenance
  import opened EpochTables
  import opened EpochMachine
  import opened EpochProofs
  import opened EpochTheorems
  import opened SeedPlan
  import opened OfflineVerifiers

  /**
   Seeders hash, sign and seal their rows; any number of them and of readers run interleaved and may be cut
   off anywhere. Whatever bundle a reader then hands out, its JSON is accepted by the offline verifiers, and by
   one that checks more.
   */
  lemma AuditTrailHolds(w: World, js: JsVerifyFn, schedule: seq<Action>, n: nat)
    requires ValidWorld(w) && Implements(js, w.ed25519)
    requires var st := Run(PlanOf(w), EMPTY, schedule);
      n < |st.readers| && st.readers[n].phase.Answered? && st.readers[n].phase.result.Ok?
    ensures var wire := OnTheWire(Run(PlanOf(w), EMPTY, schedule).readers[n].phase.result.value);
      && SignatureCheck(js, wire) == Some(true)
      && RootCheck(w.h, wire) == Some(true)
      && FullyChecked(wire)
  {
    PlanIsValid(w);
    AnsweredBundlesAreAccepted(PlanOf(w), w.ed25519, schedule, n);
    var b := Run(PlanOf(w), EMPTY, schedule).readers[n].phase.result.value;
    WireVerdict(w.h, js, w.ed25519, b);
    UnhexHex(b.cell.contentHash);
    HexAllLength(b.proof);
    assert (b.leafIndex as real).Floor == b.leafIndex;
  }

  /** A bundle from anywhere that names an epoch row as it is stored. */
  predicate Names(wire: WireBundle, row: EpochRow) {
    Unhex(wire.merkleRoot) == Some(row.merkleRoot) && wire.cellCount == row.cellCount
  }

  /**
   Soundness of the audit. A bundle from anywhere that names a stored epoch row and is fully checked passes the
   root check of the offline verifiers if and only if it shows the content hash stored at its rank, with the one
   honest path; otherwise it contains a collision.
   */
  lemma AcceptedBundleIsStored(p: Plan, schedule: seq<Action>, k: EpochKey, wire: WireBundle)
    requires ValidPlan(p) && k in Run(p, EMPTY, schedule).db.epochs
    requires Names(wire, Run(p, EMPTY, schedule).db.epochs[k]) && FullyChecked(wire)
    ensures var leaves := EpochLeaves(Run(p, EMPTY, schedule).db, k.tenant, k.epoch);
      && |leaves| == wire.cellCount && AllDigests(leaves)
      && ((RootCheck(p.h, wire) == Some(true) <==> ShowsLeaf(p.h, Hashes(leaves), wire))
          || BreaksHash(p.h, Hashes(leaves), wire))
  {
    StoredEpochsAreComplete(p, schedule, k);
    CheckedBundleShowsLeaf(p.h, Hashes(EpochLeaves(Run(p, EMPTY, schedule).db, k.tenant, k.epoch)), wire);
  }

  // ---------------------------------------------------------------------------
  // What a root says about payloads
  // ---------------------------------------------------------------------------

  function PayloadHashes(h: HashFn, payloads: seq<Json>): (hashes: seq<Digest>)
    ensures |hashes| == |payloads| && forall i :: 0 <= i < |hashes| ==> hashes[i] == ContentHash(h, payloads[i])
  {
    seq(|payloads|, i requires 0 <= i < |payloads| => ContentHash(h, payloads[i]))
  }

  /** The bytes hashed for two payloads. */
  function PayloadInputs(v: Json, w: Json): (Bytes, Bytes) {
    (Utf8(Canonical(Gns, v)), Utf8(Canonical(Gns, w)))
  }

  /** A place where the hash was broken between two lists of payloads: in a payload, or in the tree. */
  ghost predicate BrokenAt(h: HashFn, a: seq<Json>, b: seq<Json>, i: nat)
    requires |a| == |b|
  {
    && i < |a|
    && (Collision(h, PayloadInputs(a[i], b[i]))
        || (|a| > 1 && Collision(h, PartingInputs(h, PayloadHashes(h, a), PayloadHashes(h, b), i))))
  }

  /** Equally many payloads under one root are the same payloads, up to null fields and key order. */
  lemma SealedRootBindsPayloads(h: HashFn, a: seq<Json>, b: seq<Json>)
    requires |a| == |b| && EpochRoot(h, PayloadHashes(h, a)) == EpochRoot(h, PayloadHashes(h, b))
    requires forall i :: 0 <= i < |a| ==> SerdeValue(a[i]) && SerdeValue(b[i])
    ensures (forall i :: 0 <= i < |a| ==> Same(Gns, a[i], b[i])) || exists i: nat :: BrokenAt(h, a, b, i)
  {
    var x, y := PayloadHashes(h, a), PayloadHashes(h, b);
    SealedRootBindsLeaves(h, x, y);
    if x != y {
      var i: nat :| i < |x| && |x| > 1 && Collision(h, PartingInputs(h, x, y, i));
      assert BrokenAt(h, a, b, i);
    } else if forall i: nat :: !BrokenAt(h, a, b, i) {
      forall i | 0 <= i < |a| ensures Same(Gns, a[i], b[i]) {
        assert !BrokenAt(h, a, b, i);
        assert x[i] == y[i];
        ContentHashIdentifies(h, a[i], b[i]);
      }
    }
  }

  function Payloads(w: World, tenant: TenantId, epoch: int): (payloads: seq<Json>)
    ensures |payloads| == |PlannedRows(w, tenant, epoch)|
    ensures forall i :: 0 <= i < |payloads| ==> payloads[i] == PlannedRows(w, tenant, epoch)[i].1.payload
  {
    var rows := PlannedRows(w, tenant, epoch);
    seq(|rows|, i requires 0 <= i < |rows| => rows[i].1.payload)
  }

  lemma RootOfPayloads(w: World, tenant: TenantId, epoch: int)
    requires SerdePayloads(w)
    ensures SealedEpoch(PlanOf(w), tenant, epoch).merkleRoot
         == EpochRoot(w.h, PayloadHashes(w.h, Payloads(w, tenant, epoch)))
    ensures SealedEpoch(PlanOf(w), tenant, epoch).cellCount == |Payloads(w, tenant, epoch)|
    ensures forall i :: 0 <= i < |Payloads(w, tenant, epoch)| ==> SerdeValue(Payloads(w, tenant, epoch)[i])
  {
    var rows := PlannedRows(w, tenant, epoch);
    assert PlanOf(w).rows(tenant, epoch) == rows;
    assert ContentHashes(rows) == PayloadHashes(w.h, Payloads(w, tenant, epoch));
  }

  /**
   Two sealed epochs, of whatever seeders, tenants and epochs, with one root and one cell count hold the same
   payloads rank by rank; otherwise the hash was broken at a place that can be pointed at.
   */
  lemma EqualSealsEqualPayloads(v: World, t: TenantId, e: int, w: World, u: TenantId, f: int)
    requires SerdePayloads(v) && SerdePayloads(w) && v.h == w.h
    requires var a, b := SealedEpoch(PlanOf(v), t, e), SealedEpoch(PlanOf(w), u, f);
      a.merkleRoot == b.merkleRoot && a.cellCount == b.cellCount
    ensures |Payloads(v, t, e)| == |Payloads(w, u, f)|
    ensures
      || (forall i :: 0 <= i < |Payloads(v, t, e)| ==> Same(Gns, Payloads(v, t, e)[i], Payloads(w, u, f)[i]))
      || exists i: nat :: BrokenAt(v.h, Payloads(v, t, e), Payloads(w, u, f), i)
  {
    RootOfPayloads(v, t, e);
    RootOfPayloads(w, u, f);
    SealedRootBindsPayloads(v.h, Payloads(v, t, e), Payloads(w, u, f));
  }

  /**
   An auditor who also hashes the payload: a bundle from anywhere that passes the root check under a stored
   epoch row, with index, path length and content hash checked, carries the payload the seeder sealed at that
   rank, or contains a collision.
   */
  lemma AcceptedPayloadIsSealed(w: World, schedule: seq<Action>, k: EpochKey, wire: WireBundle, payload: Json)
    requires ValidWorld(w) && SerdePayloads(w) && k in Run(PlanOf(w), EMPTY, schedule).db.epochs
    requires Names(wire, Run(PlanOf(w), EMPTY, schedule).db.epochs[k]) && RootCheck(w.h, wire) == Some(true)
    requires Natural(wire.leafIndex) && wire.leafIndex.Floor < wire.cellCount
    requires |wire.merkleProof| == Depth(wire.cellCount)
    requires SerdeValue(payload) && Unhex(wire.contentHash) == Some(ContentHash(w.h, payload))
    ensures |Payloads(w, k.tenant, k.epoch)| == wire.cellCount
    ensures var payloads, i := Payloads(w, k.tenant, k.epoch), wire.leafIndex.Floor;
      || Same(Gns, payload, payloads[i])
      || Collision(w.h, PayloadInputs(payload, payloads[i]))
      || BreaksHash(w.h, PayloadHashes(w.h, payloads), wire)
  {
    RootOfPayloads(w, k.tenant, k.epoch);
    StoredEpochIsSealed(w, schedule, k);
    var payloads := Payloads(w, k.tenant, k.epoch);
    CheckedBundleShowsLeaf(w.h, PayloadHashes(w.h, payloads), wire);
    if ShowsLeaf(w.h, PayloadHashes(w.h, payloads), wire)
       && !Collision(w.h, PayloadInputs(payload, payloads[wire.leafIndex.Floor])) {
      ContentHashIdentifies(w.h, payload, payloads[wire.leafIndex.Floor]);
    }
  }

  lemma StoredEpochIsSealed(w: World, schedule: seq<Action>, k: EpochKey)
    requires ValidWorld(w) && k in Run(PlanOf(w), EMPTY, schedule).db.epochs
    ensures Run(PlanOf(w), EMPTY, schedule).db.epochs[k] == SealedEpoch(PlanOf(w), k.tenant, k.epoch)
  {
    PlanIsValid(w);
    ReachableIsSound(PlanOf(w), schedule);
  }
}
