/** One uninterrupted seeder run against the database, statement by statement. */
module SeedRun {
  import opened Bytes
  import opened Text
  import opened CanonicalJson
  import opened RenderTools
  import opened EpochTree
  import opened Sorting
  import opened Substations
  import opened Provenance
  import opened EpochTables
  import opened EpochMachine
  import opened EpochProofs
  import opened SeedPlan
  import opened EpochTheorems

  /** Writing an epoch of the plan keeps sound tables sound, whether the epoch was there or not. */
  lemma WriteIsSound(p: Plan, db: Tables, key: EpochKey, db': Tables)
    requires Sound(p, db) && 0 <= key.epoch < EPOCH_COUNT
    requires key.epoch > 0 ==> EpochKey(key.tenant, key.epoch - 1) in db.epochs
    requires db'.epochs == if key in db.epochs then db.epochs
                           else db.epochs[key := SealedEpoch(p, key.tenant, key.epoch)]
    requires db'.cells == InsertRows(map[], db.cells, p.rows(key.tenant, key.epoch))
    ensures Sound(p, db') && Grows(db, db') && key in db'.epochs
  {
    var rows := p.rows(key.tenant, key.epoch);
    AddNone(db.cells);
    InsertBeside(db.cells, map[], rows);
    if key in db.epochs {
      forall i | 0 <= i < |rows| ensures rows[i].0 in db.cells {
        RowsCommittedTogether(p, db, key.tenant, key.epoch, i);
      }
      InsertStale(db.cells, map[], rows);
      assert db' == db;
    } else {
      forall i | 0 <= i < |rows| ensures rows[i].0 !in db.cells {
        RowsCommittedTogether(p, db, key.tenant, key.epoch, i);
      }
      InsertFresh(db.cells, map[], rows);
      EpochAdded(p, db, key, db');
    }
  }

  /** The epoch loop before its turn for an epoch, started over the tables `start`. */
  ghost predicate SeededUpTo(p: Plan, tenant: TenantId, start: Tables, db: Tables, epoch: int, parent: Option<Digest>) {
    && Sound(p, db)
    && Grows(start, db)
    && (forall e :: 0 <= e < epoch ==> EpochKey(tenant, e) in db.epochs)
    && parent == ParentOf(p, tenant, epoch)
  }

  /** What write_epoch makes of the tables, given the rows of the epoch. */
  ghost predicate Written(h: HashFn, rows: seq<Row>, key: EpochKey, sealedAt: int, parent: Option<Digest>,
                          db: Tables, db': Tables, root: Digest)
  {
    && root == EpochRoot(h, ContentHashes(rows))
    && db'.epochs == (if key in db.epochs then db.epochs
                      else db.epochs[key := EpochRow(sealedAt, root, parent, |rows|)])
    && db'.cells == InsertRows(map[], db.cells, rows)
  }

  lemma LoopTurn(p: Plan, tenant: TenantId, start: Tables, db: Tables, epoch: int, parent: Option<Digest>,
                 db': Tables, root: Digest)
    requires SeededUpTo(p, tenant, start, db, epoch, parent) && 0 <= epoch < EPOCH_COUNT
    requires Written(p.h, p.rows(tenant, epoch), EpochKey(tenant, epoch), SealedAt(epoch), parent, db, db', root)
    ensures SeededUpTo(p, tenant, start, db', epoch + 1, Some(root))
  {
    assert epoch > 0 ==> EpochKey(tenant, epoch - 1) in db.epochs;
    WriteIsSound(p, db, EpochKey(tenant, epoch), db');
    GrowsFurther(start, db, db');
    forall e | 0 <= e < epoch + 1 ensures EpochKey(tenant, e) in db'.epochs {
      assert e < epoch ==> EpochKey(tenant, e) in db.epochs;
    }
  }

  /** The plan has the tenant's epochs as they follow from the substations. */
  ghost predicate PlannedFrom(w: World, tenant: TenantId, substations: seq<Substation>, p: Plan) {
    forall e :: p.rows(tenant, e) == RowsOf(w, tenant, LeafOrder(substations), e)
  }

  lemma SeedingStarts(p: Plan, tenant: TenantId, db: Tables)
    requires Sound(p, db)
    ensures SeededUpTo(p, tenant, db, db, 0, None)
  {
  }

  lemma GrowsFurther(a: Tables, b: Tables, c: Tables)
    requires Grows(a, b) && Grows(b, c)
    ensures Grows(a, c)
  {
  }

  /** However a complete run interleaves with others, it leaves the tenant the rows a run on its own leaves. */
  lemma AloneOrInterleaved(w: World, db: Tables, tenant: TenantId, schedule: seq<Action>, i: nat)
    requires ValidWorld(w) && Sound(PlanOf(w), db)
    requires forall e :: 0 <= e < EPOCH_COUNT ==> EpochKey(tenant, e) in db.epochs
    requires var st := Run(PlanOf(w), EMPTY, schedule);
      i < |st.seeders| && st.seeders[i].phase.Finished? && st.seeders[i].tenant == tenant
    ensures SameTenantRows(db, Run(PlanOf(w), EMPTY, schedule).db, tenant)
  {
    PlanIsValid(w);
    FinishedMeansAllEpochs(PlanOf(w), schedule, i);
    CompleteTablesAgree(PlanOf(w), db, Run(PlanOf(w), EMPTY, schedule).db, tenant);
  }

  class Database {
    var epochs: map<EpochKey, EpochRow>
    var cells: CellMap

    constructor ()
      ensures epochs == map[] && cells == map[]
    {
      epochs := map[];
      cells := map[];
    }

    function Tables(): Tables
      reads this
    {
      EpochMachine.Tables(epochs, cells)
    }

    /** INSERT ... ON CONFLICT (tenant_id, h3_cell, epoch_id) DO NOTHING, reporting the rows affected. */
    method InsertBatch(chunk: seq<Row>) returns (affected: nat)
      modifies this`cells
      ensures cells == InsertRows(map[], old(cells), chunk)
      ensures affected == |cells| - |old(cells)| <= |chunk|
    {
      affected := 0;
      for i := 0 to |chunk|
        invariant affected <= i && affected == |cells| - |old(cells)|
        invariant InsertRows(map[], cells, chunk[i..]) == InsertRows(map[], old(cells), chunk)
      {
        assert chunk[i..][1..] == chunk[i + 1..];
        if chunk[i].0 !in cells {
          cells := cells[chunk[i].0 := chunk[i].1];
          affected := affected + 1;
        }
      }
    }

    /** All rows in statements of BATCH_SIZE: the same rows go in as in one statement. */
    method InsertAll(rows: seq<Row>) returns (inserted: nat, skipped: nat)
      modifies this`cells
      ensures cells == InsertRows(map[], old(cells), rows)
      ensures inserted + skipped == |rows|
      ensures inserted == |cells| - |old(cells)|
    {
      inserted, skipped := 0, 0;
      var pos := 0;
      while pos < |rows|
        invariant 0 <= pos <= |rows|
        invariant cells == InsertRows(map[], old(cells), rows[..pos])
        invariant inserted + skipped == pos && inserted == |cells| - |old(cells)|
      {
        var end := if pos + BATCH_SIZE < |rows| then pos + BATCH_SIZE else |rows|;
        InsertInBatches(map[], old(cells), rows[..pos], rows[pos..end]);
        assert rows[..pos] + rows[pos..end] == rows[..end];
        var affected := InsertBatch(rows[pos..end]);
        inserted := inserted + affected;
        skipped := skipped + (end - pos) - affected;
        pos := end;
      }
      assert rows[..|rows|] == rows;
    }

    /** Payload, content hash and signature of every row, in leaf order. */
    method BuildRows(w: World, tenant: TenantId, epochId: int, substations: seq<Substation>)
      returns (rows: seq<Row>, contentHashes: seq<Digest>)
      requires ValidWorld(w)
      ensures rows == RowsOf(w, tenant, LeafOrder(substations), epochId)
      ensures contentHashes == ContentHashes(rows)
    {
      hide RowOf, ValidWorld, SortBy;
      var ordered := SortBy(Signed, substations);
      rows, contentHashes := [], [];
      for i := 0 to |ordered|
        invariant rows == RowsOf(w, tenant, ordered, epochId)[..i]
        invariant contentHashes == ContentHashes(rows)
      {
        var row := SignRow(w, tenant, ordered[i], epochId);
        rows := rows + [row];
        contentHashes := contentHashes + [row.1.contentHash];
      }
    }

    method SignRow(w: World, tenant: TenantId, sub: Substation, epochId: int) returns (row: Row)
      requires ValidWorld(w)
      ensures row == RowOf(w, tenant, sub, epochId)
      ensures row.0 == CellKey(tenant, AsI64(sub.h3), epochId) && row.1.payload == w.payload(sub, epochId)
      ensures row.1.contentHash == w.h(Utf8(Canonical(Gns, row.1.payload)))
      ensures row.1.identityPk == w.publicKey(w.h(Utf8(sub.osmId)))
      ensures row.1.signature == w.sign(w.h(Utf8(sub.osmId)), row.1.contentHash)
    {
      var payload := w.payload(sub, epochId);
      var canonical := CanonicalJsonOf(payload);
      var contentHash := w.h(Utf8(canonical));
      var secret := SecretOf(w, sub);
      row := (CellKey(tenant, AsI64(sub.h3), epochId),
              CellRow(w.publicKey(secret), payload, contentHash, w.sign(secret, contentHash)));
    }

    /** write_epoch. The transaction commits as a whole, so its effect is that of its statements in turn. */
    method WriteEpoch(w: World, tenant: TenantId, epochId: int, sealedAt: int, parentRoot: Option<Digest>,
                      substations: seq<Substation>)
      returns (merkleRoot: Digest, inserted: nat, skipped: nat)
      requires ValidWorld(w)
      modifies this
      ensures Written(w.h, RowsOf(w, tenant, LeafOrder(substations), epochId), EpochKey(tenant, epochId),
                      sealedAt, parentRoot, old(Tables()), Tables(), merkleRoot)
      ensures inserted + skipped == |substations| && inserted == |cells| - |old(cells)|
    {
      SortByKeepsLength(Signed, substations);
      var rows, contentHashes := BuildRows(w, tenant, epochId, substations);
      merkleRoot := MerkleRoot(w.h, contentHashes);
      var present := EpochKey(tenant, epochId) in epochs;
      if !present {
        epochs := epochs[EpochKey(tenant, epochId) := EpochRow(sealedAt, merkleRoot, parentRoot, |rows|)];
      }
      inserted, skipped := InsertAll(rows);
    }

    /** One turn of the epoch loop. */
    method SeedEpoch(w: World, tenant: TenantId, epochId: nat, parentRoot: Option<Digest>,
                     substations: seq<Substation>, ghost p: Plan, ghost start: Tables)
      returns (root: Digest)
      requires ValidWorld(w) && p.h == w.h && epochId < EPOCH_COUNT
      requires PlannedFrom(w, tenant, substations, p)
      requires SeededUpTo(p, tenant, start, Tables(), epochId, parentRoot)
      modifies this
      ensures SeededUpTo(p, tenant, start, Tables(), epochId + 1, Some(root))
    {
      ghost var before := Tables();
      var inserted, skipped;
      root, inserted, skipped := WriteEpoch(w, tenant, epochId, SealedAt(epochId), parentRoot, substations);
      LoopTurn(p, tenant, start, before, epochId, parentRoot, Tables(), root);
    }

    /** The epoch loop of main: every epoch in turn, each with the root before it as parent. */
    method SeedEpochs(w: World, tenant: TenantId, substations: seq<Substation>, ghost p: Plan)
      returns (parentRoot: Option<Digest>)
      requires ValidWorld(w) && p.h == w.h
      requires PlannedFrom(w, tenant, substations, p)
      requires Sound(p, Tables())
      modifies this
      ensures SeededUpTo(p, tenant, old(Tables()), Tables(), EPOCH_COUNT, parentRoot)
    {
      hide *;
      ghost var start := Tables();
      SeedingStarts(p, tenant, start);
      parentRoot := None;
      for epochId := 0 to EPOCH_COUNT
        invariant SeededUpTo(p, tenant, start, Tables(), epochId, parentRoot)
      {
        var root := SeedEpoch(w, tenant, epochId, parentRoot, substations, p, start);
        parentRoot := Some(root);
      }
    }

    /**
     A whole seeder run. Over tables left by any earlier runs it completes the tenant's ten epochs, changes
     nothing that was there, and leaves the rows every complete run leaves.
     */
    method Seed(w: World, tenant: TenantId)
      requires ValidWorld(w) && Sound(PlanOf(w), Tables())
      modifies this
      ensures Sound(PlanOf(w), Tables()) && Grows(old(Tables()), Tables())
      ensures forall e :: 0 <= e < 10 ==> EpochKey(tenant, e) in epochs
    {
      var substations := BuildSubstations(w.features(tenant));
      var lastRoot := SeedEpochs(w, tenant, substations, PlanOf(w));
    }
  }
}
