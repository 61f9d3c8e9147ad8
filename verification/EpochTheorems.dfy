/** The guarantees of the sealed-epoch store, over every schedule of seeders, readers and crashes. */
module EpochTheorems {
  import opened Bytes
  import opened Merkle
  import opened EpochTree
  import opened Sorting
  import opened Provenance
  import opened EpochTables
  import opened EpochMachine
  import opened EpochProofs

  // ---------------------------------------------------------------------------
  // Readers
  // ---------------------------------------------------------------------------

  /** Every planned row carries its writer's valid signature. */
  ghost predicate SignedPlan(p: Plan, ed25519: VerifyFn) {
    forall tenant, epoch, i :: 0 <= i < |p.rows(tenant, epoch)| ==>
      var row := p.rows(tenant, epoch)[i].1; ed25519(row.identityPk, row.contentHash, row.signature)
  }

  lemma TrueBundleAccepted(p: Plan, ed25519: VerifyFn, tenant: TenantId, epoch: int, i: nat)
    requires SignedPlan(p, ed25519) && i < |p.rows(tenant, epoch)|
    ensures Accepted(p.h, ed25519, TrueBundle(p, tenant, epoch, i))
  {
    var rows := p.rows(tenant, epoch);
    HonestPathAccepted(NodeHash(p.h), ContentHashes(rows), i);
  }

  /**
   Whatever the schedule, a reader's bundle is accepted offline, its index lies below the sealed cell
   count, and the index is the cell's rank among the epoch's stored keys in signed order.
   */
  lemma AnsweredBundlesAreAccepted(p: Plan, ed25519: VerifyFn, schedule: seq<Action>, n: nat)
    requires ValidPlan(p) && SignedPlan(p, ed25519)
    requires n < |Run(p, EMPTY, schedule).readers|
    requires Run(p, EMPTY, schedule).readers[n].phase.Answered?
    requires Run(p, EMPTY, schedule).readers[n].phase.result.Ok?
    ensures var st := Run(p, EMPTY, schedule);
      var key, b := st.readers[n].key, st.readers[n].phase.result.value;
      && Accepted(p.h, ed25519, b)
      && b.cellKey == key
      && b.leafIndex < b.epoch.cellCount
      && |b.proof| == Depth(b.epoch.cellCount)
      && key in st.db.cells && b.cell == st.db.cells[key]
      && |InOrder(EpochKeys(st.db, key.tenant, key.epoch))| == b.epoch.cellCount
      && InOrder(EpochKeys(st.db, key.tenant, key.epoch))[b.leafIndex] == key.h3
  {
    ReachableIsSound(p, schedule);
    var st := Run(p, EMPTY, schedule);
    var key, b := st.readers[n].key, st.readers[n].phase.result.value;
    assert ReaderOk(p, st.db, st.readers[n]);
    var i: nat :|
      i < |p.rows(key.tenant, key.epoch)| && b == TrueBundle(p, key.tenant, key.epoch, i) && b.cellKey == key;
    TrueBundleAccepted(p, ed25519, key.tenant, key.epoch, i);
    var j := StoredCellIsRow(p, st.db, key);
    assert i == j;
    StoredKeysInOrder(p, st.db, key.tenant, key.epoch);
  }

  /** A reader asked for a stored cell never fails, whatever else runs. */
  ghost predicate NotFailed(st: State, n: nat, key: CellKey) {
    n < |st.readers| && st.readers[n].key == key && key in st.db.cells
    && !(st.readers[n].phase.Answered? && st.readers[n].phase.result.Err?)
  }

  lemma SeedersLeaveReaders(p: Plan, st: State, i: nat)
    requires Inv(p, st) && i < |st.seeders|
    ensures SeederStep(p, st, i).readers == st.readers
  {
    assert SeederOk(p, st.db, st.seeders[i]);
  }

  lemma StepNeverFails(p: Plan, st: State, a: Action, n: nat, key: CellKey)
    requires Inv(p, st) && NotFailed(st, n, key)
    ensures NotFailed(Step(p, st, a), n, key)
  {
    assert key in Step(p, st, a).db.cells by {
      StepKeeps(p, st, a);
    }
    match a
    case StepSeeder(i) =>
      if i < |st.seeders| {
        SeedersLeaveReaders(p, st, i);
      }
    case StepReader(i) =>
      if i < |st.readers| {
        ReaderStepKeeps(p, st.db, st.readers[i]);
      }
    case _ =>
  }

  lemma {:induction false} ReaderNeverFails(p: Plan, st: State, schedule: seq<Action>, n: nat, key: CellKey)
    requires Inv(p, st) && NotFailed(st, n, key)
    ensures NotFailed(Run(p, st, schedule), n, key)
    decreases |schedule|
  {
    if schedule == [] {
    } else {
      StepKeeps(p, st, schedule[0]);
      StepNeverFails(p, st, schedule[0], n, key);
      ReaderNeverFails(p, Step(p, st, schedule[0]), schedule[1..], n, key);
    }
  }

  lemma StoredCellIsAnswered(p: Plan, before: seq<Action>, key: CellKey, after: seq<Action>)
    requires ValidPlan(p) && key in Run(p, EMPTY, before).db.cells
    ensures var st := Run(p, EMPTY, before);
      NotFailed(Run(p, Step(p, st, StartReader(key)), after), |st.readers|, key)
  {
    ReachableIsSound(p, before);
    var st := Run(p, EMPTY, before);
    StepKeeps(p, st, StartReader(key));
    ReaderNeverFails(p, Step(p, st, StartReader(key)), after, |st.readers|, key);
  }

  // ---------------------------------------------------------------------------
  // Seeders
  // ---------------------------------------------------------------------------

  /** What one tenant's part of the tables looks like. */
  ghost predicate SameTenantRows(a: Tables, b: Tables, tenant: TenantId) {
    && (forall k: EpochKey :: k.tenant == tenant ==>
          (k in a.epochs <==> k in b.epochs) && (k in a.epochs ==> a.epochs[k] == b.epochs[k]))
    && (forall c: CellKey :: c.tenant == tenant ==>
          (c in a.cells <==> c in b.cells) && (c in a.cells ==> a.cells[c] == b.cells[c]))
  }

  /** Sound tables with all of a tenant's epochs leave no choice about the tenant's rows. */
  lemma CompleteTablesAgree(p: Plan, a: Tables, b: Tables, tenant: TenantId)
    requires Sound(p, a) && Sound(p, b)
    requires forall e :: 0 <= e < EPOCH_COUNT ==> EpochKey(tenant, e) in a.epochs && EpochKey(tenant, e) in b.epochs
    ensures SameTenantRows(a, b, tenant)
  {
    forall c: CellKey | c.tenant == tenant
      ensures (c in a.cells <==> c in b.cells) && (c in a.cells ==> a.cells[c] == b.cells[c])
    {
      assert CellSound(p, a, c) && CellSound(p, b, c);
    }
    forall k: EpochKey | k.tenant == tenant
      ensures (k in a.epochs <==> k in b.epochs) && (k in a.epochs ==> a.epochs[k] == b.epochs[k])
    {
      assert k == EpochKey(tenant, k.epoch);
    }
  }

  lemma FinishedMeansAllEpochs(p: Plan, schedule: seq<Action>, i: nat)
    requires ValidPlan(p)
    requires i < |Run(p, EMPTY, schedule).seeders| && Run(p, EMPTY, schedule).seeders[i].phase.Finished?
    ensures var st := Run(p, EMPTY, schedule);
      Sound(p, st.db)
      && forall e :: 0 <= e < EPOCH_COUNT <==> EpochKey(st.seeders[i].tenant, e) in st.db.epochs
  {
    ReachableIsSound(p, schedule);
    var st := Run(p, EMPTY, schedule);
    assert SeederOk(p, st.db, st.seeders[i]);
  }

  /**
   Restarts converge. However many seeders ran, overlapped or were cut off at any statement, once one run
   for a tenant completes, the tenant's rows are the same: in particular those of one uninterrupted run.
   */
  lemma CompletedSeedingConverges(p: Plan, s: seq<Action>, i: nat, t: seq<Action>, j: nat)
    requires ValidPlan(p)
    requires i < |Run(p, EMPTY, s).seeders| && Run(p, EMPTY, s).seeders[i].phase.Finished?
    requires j < |Run(p, EMPTY, t).seeders| && Run(p, EMPTY, t).seeders[j].phase.Finished?
    requires Run(p, EMPTY, s).seeders[i].tenant == Run(p, EMPTY, t).seeders[j].tenant
    ensures SameTenantRows(Run(p, EMPTY, s).db, Run(p, EMPTY, t).db, Run(p, EMPTY, s).seeders[i].tenant)
  {
    FinishedMeansAllEpochs(p, s, i);
    FinishedMeansAllEpochs(p, t, j);
    CompleteTablesAgree(p, Run(p, EMPTY, s).db, Run(p, EMPTY, t).db, Run(p, EMPTY, s).seeders[i].tenant);
  }

  /** At every moment: no gaps, epoch 0 has no parent, and every other epoch names its predecessor's stored root. */
  lemma StoredEpochsAreChained(p: Plan, schedule: seq<Action>, k: EpochKey)
    requires ValidPlan(p) && k in Run(p, EMPTY, schedule).db.epochs
    ensures var epochs, prev := Run(p, EMPTY, schedule).db.epochs, EpochKey(k.tenant, k.epoch - 1);
      if k.epoch == 0 then epochs[k].parentRoot == None
      else prev in epochs && epochs[k].parentRoot == Some(epochs[prev].merkleRoot)
  {
    ReachableIsSound(p, schedule);
    hide EpochsSound;
    ChainedIfSound(p, Run(p, EMPTY, schedule).db.epochs, k);
  }

  lemma ChainedIfSound(p: Plan, epochs: map<EpochKey, EpochRow>, k: EpochKey)
    requires EpochsSound(p, epochs) && k in epochs
    ensures var prev := EpochKey(k.tenant, k.epoch - 1);
      if k.epoch == 0 then epochs[k].parentRoot == None
      else prev in epochs && epochs[k].parentRoot == Some(epochs[prev].merkleRoot)
  {
  }

  /** At every moment: a stored cell's epoch is stored, and counts and roots match the stored cells. */
  lemma StoredEpochsAreComplete(p: Plan, schedule: seq<Action>, k: EpochKey)
    requires ValidPlan(p) && k in Run(p, EMPTY, schedule).db.epochs
    ensures var db := Run(p, EMPTY, schedule).db;
      var leaves := EpochLeaves(db, k.tenant, k.epoch);
      && AllDigests(leaves)
      && db.epochs[k].cellCount == |leaves|
      && db.epochs[k].merkleRoot == EpochRoot(p.h, Hashes(leaves))
    ensures var db := Run(p, EMPTY, schedule).db;
      forall c :: c in db.cells ==> EpochKey(c.tenant, c.epoch) in db.epochs
  {
    ReachableIsSound(p, schedule);
    var db, rows := Run(p, EMPTY, schedule).db, p.rows(k.tenant, k.epoch);
    StoredLeaves(p, db, k.tenant, k.epoch);
    assert Hashes(LeavesOf(rows)) == ContentHashes(rows);
    forall c | c in db.cells ensures EpochKey(c.tenant, c.epoch) in db.epochs {
      assert CellSound(p, db, c);
    }
  }

  /** Each seeder accounts for every row it has come to: inserted or skipped, whole epochs at a time. */
  lemma EveryRowInsertedOrSkipped(p: Plan, schedule: seq<Action>, i: nat)
    requires ValidPlan(p)
    requires i < |Run(p, EMPTY, schedule).seeders| && Run(p, EMPTY, schedule).seeders[i].phase.Inserting?
    ensures var s := Run(p, EMPTY, schedule).seeders[i];
      && s.phase.inserted + s.phase.skipped == s.phase.next <= |p.rows(s.tenant, s.epoch)|
      && (s.phase.inserted == 0 || s.phase.skipped == 0)
  {
    ReachableIsSound(p, schedule);
    assert SeederOk(p, Run(p, EMPTY, schedule).db, Run(p, EMPTY, schedule).seeders[i]);
  }

  // ---------------------------------------------------------------------------
  // Tables in any condition
  // ---------------------------------------------------------------------------

  /**
   With no assumption on how the tables came about: a read at rest always yields a bundle, and it is
   accepted exactly when the writer's signature holds and the stored root is the root over the cells stored
   now. An epoch row written with any other root, or cells added to an epoch afterwards, fail here.
   */
  lemma AcceptedIffRootIsCurrent(h: HashFn, ed25519: VerifyFn, db: Tables, key: CellKey)
    requires key in db.cells && EpochKey(key.tenant, key.epoch) in db.epochs
    ensures var cell, epoch := db.cells[key], db.epochs[EpochKey(key.tenant, key.epoch)];
      var leaves := EpochLeaves(db, key.tenant, key.epoch);
      var answer := Answer(h, key, cell, epoch, leaves);
      && AllDigests(leaves) && answer.Ok?
      && (Accepted(h, ed25519, answer.value) <==>
            && ed25519(cell.identityPk, cell.contentHash, cell.signature)
            && epoch.merkleRoot == EpochRoot(h, Hashes(leaves)))
  {
    hide Fold, EpochRoot, Path, Hashes, EpochTree.FirstIndex;
    var leaves := EpochLeaves(db, key.tenant, key.epoch);
    var keys := InOrder(EpochKeys(db, key.tenant, key.epoch));
    assert key.h3 in EpochKeys(db, key.tenant, key.epoch);
    var i :| 0 <= i < |keys| && keys[i] == key.h3;
    assert leaves[i].0 == key.h3;
    assert key == CellKey(key.tenant, key.h3, key.epoch);
    EveryKeyHasAcceptedProof(h, leaves, key.h3);
  }
}
