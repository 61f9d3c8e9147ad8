/** What holds in every state of every schedule, and what follows for readers and restarts. */
module EpochProofs {
  import opened Bytes
  import opened EpochTree
  import opened Sorting
  import opened Provenance
  import opened EpochTables
  import opened EpochMachine

  // ---------------------------------------------------------------------------
  // Rows of one epoch
  // ---------------------------------------------------------------------------

  lemma RowsInTable(rows: seq<Row>, tenant: TenantId, epoch: int, n: nat)
    requires WellOrdered(rows, tenant, epoch) && n <= |rows|
    ensures |TableOf(rows[..n])| == n
    ensures forall i :: 0 <= i < n ==> rows[i].0 in TableOf(rows[..n]) && TableOf(rows[..n])[rows[i].0] == rows[i].1
    ensures forall c :: c in TableOf(rows[..n]) ==>
      c.tenant == tenant && c.epoch == epoch && exists i :: 0 <= i < n && rows[i].0 == c
  {
    TableHoldsRows(rows, n);
  }

  lemma WholeTable(rows: seq<Row>, tenant: TenantId, epoch: int)
    requires WellOrdered(rows, tenant, epoch)
    ensures rows[..|rows|] == rows
    ensures forall i :: 0 <= i < |rows| ==> rows[i].0 in TableOf(rows) && TableOf(rows)[rows[i].0] == rows[i].1
    ensures forall c :: c in TableOf(rows) ==>
      c.tenant == tenant && c.epoch == epoch && exists i :: 0 <= i < |rows| && rows[i].0 == c
  {
    assert rows[..|rows|] == rows;
    RowsInTable(rows, tenant, epoch, |rows|);
  }

  /** An epoch is committed with all its rows or with none of them. */
  lemma RowsCommittedTogether(p: Plan, db: Tables, tenant: TenantId, epoch: int, i: nat)
    requires Sound(p, db) && i < |p.rows(tenant, epoch)|
    ensures p.rows(tenant, epoch)[i].0 in db.cells <==> EpochKey(tenant, epoch) in db.epochs
  {
    assert CellSound(p, db, p.rows(tenant, epoch)[i].0);
    WholeTable(p.rows(tenant, epoch), tenant, epoch);
  }

  lemma BatchOfCommittedEpoch(p: Plan, db: Tables, s: Seeder, end: nat)
    requires Sound(p, db) && SeederOk(p, db, s) && s.phase.Inserting?
    requires s.phase.next <= end <= |p.rows(s.tenant, s.epoch)|
    requires EpochKey(s.tenant, s.epoch) in db.epochs
    ensures InsertRows(db.cells, s.ownCells, p.rows(s.tenant, s.epoch)[s.phase.next..end]) == s.ownCells
  {
    var batch := p.rows(s.tenant, s.epoch)[s.phase.next..end];
    forall i | 0 <= i < |batch| ensures batch[i].0 in db.cells {
      RowsCommittedTogether(p, db, s.tenant, s.epoch, s.phase.next + i);
    }
    InsertStale(db.cells, s.ownCells, batch);
  }

  lemma FreshBatch(rows: seq<Row>, tenant: TenantId, epoch: int, cells: CellMap, next: nat, end: nat)
    requires WellOrdered(rows, tenant, epoch) && next <= end <= |rows|
    requires forall i :: 0 <= i < |rows| ==> rows[i].0 !in cells
    ensures var own := InsertRows(cells, TableOf(rows[..next]), rows[next..end]);
      own == TableOf(rows[..end]) && |own| == |TableOf(rows[..next])| + (end - next)
  {
    InsertFresh(cells, TableOf(rows[..next]), rows[next..end]);
    InsertInBatches(map[], map[], rows[..next], rows[next..end]);
    assert rows[..next] + rows[next..end] == rows[..end];
    RowsInTable(rows, tenant, epoch, next);
    RowsInTable(rows, tenant, epoch, end);
  }

  lemma BatchOfNewEpoch(p: Plan, db: Tables, s: Seeder, end: nat)
    requires Sound(p, db) && SeederOk(p, db, s) && s.phase.Inserting?
    requires s.phase.next <= end <= |p.rows(s.tenant, s.epoch)|
    requires EpochKey(s.tenant, s.epoch) !in db.epochs
    ensures var rows := p.rows(s.tenant, s.epoch);
      var own := InsertRows(db.cells, s.ownCells, rows[s.phase.next..end]);
      own == TableOf(rows[..end]) && |own| == |s.ownCells| + (end - s.phase.next)
  {
    var rows := p.rows(s.tenant, s.epoch);
    forall i | 0 <= i < |rows| ensures rows[i].0 !in db.cells {
      RowsCommittedTogether(p, db, s.tenant, s.epoch, i);
    }
    FreshBatch(rows, s.tenant, s.epoch, db.cells, s.phase.next, end);
  }

  // ---------------------------------------------------------------------------
  // Committed data only grows
  // ---------------------------------------------------------------------------

  ghost predicate Grows(db: Tables, db': Tables) {
    && (forall k :: k in db.epochs ==> k in db'.epochs && db'.epochs[k] == db.epochs[k])
    && (forall c :: c in db.cells ==> c in db'.cells && db'.cells[c] == db.cells[c])
  }

  lemma ReaderUndisturbed(p: Plan, db: Tables, db': Tables, r: Reader)
    requires ReaderOk(p, db, r) && Grows(db, db')
    ensures ReaderOk(p, db', r)
  {
  }

  lemma SeederUndisturbed(p: Plan, db: Tables, db': Tables, s: Seeder)
    requires SeederOk(p, db, s) && Grows(db, db')
    requires forall k :: k in s.ownEpochs ==> k !in db'.epochs
    ensures SeederOk(p, db', s)
  {
    var key := EpochKey(s.tenant, s.epoch);
    assert s.phase.Inserting? && key !in db.epochs ==> key in s.ownEpochs;
  }

  // ---------------------------------------------------------------------------
  // Steps of a seeder
  // ---------------------------------------------------------------------------

  /** Replacing one seeder while the tables stay. */
  lemma SeederReplaced(p: Plan, st: State, i: nat, s: Seeder)
    requires Inv(p, st) && i < |st.seeders|
    requires SeederOk(p, st.db, s)
    requires forall k :: k in s.ownEpochs ==> k in st.seeders[i].ownEpochs || !EpochLocked(st, i, k)
    ensures Inv(p, WithSeeder(st, i, s))
  {
    var st' := WithSeeder(st, i, s);
    forall a, b, k | 0 <= a < b < |st'.seeders| && k in st'.seeders[a].ownEpochs
      ensures k !in st'.seeders[b].ownEpochs
    {
      assert k in st.seeders[a].ownEpochs ==> k !in st.seeders[b].ownEpochs;
    }
  }

  lemma InsertEpochKeeps(p: Plan, st: State, i: nat)
    requires Inv(p, st) && i < |st.seeders| && st.seeders[i].phase == Checked(false)
    ensures Inv(p, InsertEpoch(p, st, i))
  {
    var s := st.seeders[i];
    var key := EpochKey(s.tenant, s.epoch);
    if !EpochLocked(st, i, key) {
      if key in st.db.epochs {
        SeederReplaced(p, st, i, Stop(s));
      } else {
        var s' := InsertEpoch(p, st, i).seeders[i];
        assert TableOf(p.rows(s.tenant, s.epoch)[..0]) == map[];
        SeederReplaced(p, st, i, s');
      }
    }
  }

  lemma BatchKeepsSeeder(p: Plan, db: Tables, s: Seeder)
    requires Sound(p, db) && SeederOk(p, db, s) && s.phase.Inserting?
    ensures SeederOk(p, db, AfterBatch(p, db, s))
  {
    if EpochKey(s.tenant, s.epoch) in db.epochs {
      BatchOfCommittedEpoch(p, db, s, BatchEnd(p, s));
    } else {
      BatchOfNewEpoch(p, db, s, BatchEnd(p, s));
    }
  }

  lemma InsertBatchKeeps(p: Plan, st: State, i: nat)
    requires Inv(p, st) && i < |st.seeders| && st.seeders[i].phase.Inserting?
    ensures st.seeders[i].phase.next <= |p.rows(st.seeders[i].tenant, st.seeders[i].epoch)|
    ensures Inv(p, InsertBatch(p, st, i))
  {
    var s := st.seeders[i];
    assert SeederOk(p, st.db, s);
    BatchKeepsSeeder(p, st.db, s);
    SeederReplaced(p, st, i, AfterBatch(p, st.db, s));
  }

  lemma CellStaysSound(p: Plan, db: Tables, key: EpochKey, db': Tables, c: CellKey)
    requires Sound(p, db) && key !in db.epochs
    requires db'.epochs == db.epochs[key := SealedEpoch(p, key.tenant, key.epoch)]
    requires db'.cells == db.cells + TableOf(p.rows(key.tenant, key.epoch))
    ensures CellSound(p, db', c)
    ensures c in db.cells ==> c in db'.cells && db'.cells[c] == db.cells[c]
  {
    var table := TableOf(p.rows(key.tenant, key.epoch));
    assert CellSound(p, db, c);
    assert c in table ==> EpochKey(c.tenant, c.epoch) == key by {
      WholeTable(p.rows(key.tenant, key.epoch), key.tenant, key.epoch);
    }
  }

  /** Adding the next epoch of a tenant, whole, keeps the tables sound. */
  lemma EpochAdded(p: Plan, db: Tables, key: EpochKey, db': Tables)
    requires Sound(p, db) && 0 <= key.epoch < EPOCH_COUNT && key !in db.epochs
    requires key.epoch > 0 ==> EpochKey(key.tenant, key.epoch - 1) in db.epochs
    requires db'.epochs == db.epochs[key := SealedEpoch(p, key.tenant, key.epoch)]
    requires db'.cells == db.cells + TableOf(p.rows(key.tenant, key.epoch))
    ensures Sound(p, db') && Grows(db, db')
  {
    forall c
      ensures CellSound(p, db', c)
      ensures c in db.cells ==> c in db'.cells && db'.cells[c] == db.cells[c]
    {
      CellStaysSound(p, db, key, db', c);
    }
    assert EpochsSound(p, db'.epochs);
  }

  lemma AddNone<K, V>(m: map<K, V>)
    ensures m + map[] == m
  {
  }

  lemma AddOne<K, V>(m: map<K, V>, k: K, v: V)
    ensures m + map[k := v] == m[k := v]
  {
  }

  lemma CommitOfOldEpoch(p: Plan, db: Tables, s: Seeder)
    requires SeederOk(p, db, s) && s.phase.Inserting? && EpochKey(s.tenant, s.epoch) in db.epochs
    ensures Committed(db, s) == db
  {
    AddNone(db.epochs);
    AddNone(db.cells);
  }

  lemma CommitOfNewEpoch(p: Plan, db: Tables, s: Seeder)
    requires SeederOk(p, db, s) && s.phase.Inserting? && EpochKey(s.tenant, s.epoch) !in db.epochs
    requires s.phase.next == |p.rows(s.tenant, s.epoch)|
    ensures Committed(db, s).epochs == db.epochs[EpochKey(s.tenant, s.epoch) := SealedEpoch(p, s.tenant, s.epoch)]
    ensures Committed(db, s).cells == db.cells + TableOf(p.rows(s.tenant, s.epoch))
    ensures s.epoch > 0 ==> EpochKey(s.tenant, s.epoch - 1) in db.epochs
  {
    var rows := p.rows(s.tenant, s.epoch);
    assert rows[..|rows|] == rows;
    AddOne(db.epochs, EpochKey(s.tenant, s.epoch), SealedEpoch(p, s.tenant, s.epoch));
  }

  /** A commit adds one whole epoch or nothing. */
  lemma CommitIsSound(p: Plan, db: Tables, s: Seeder)
    requires Sound(p, db) && SeederOk(p, db, s)
    requires s.phase.Inserting? && s.phase.next == |p.rows(s.tenant, s.epoch)|
    ensures Sound(p, Committed(db, s)) && Grows(db, Committed(db, s))
    ensures EpochKey(s.tenant, s.epoch) in Committed(db, s).epochs
  {
    var key, db' := EpochKey(s.tenant, s.epoch), Committed(db, s);
    if key in db.epochs {
      CommitOfOldEpoch(p, db, s);
    } else {
      assert 0 <= key.epoch < EPOCH_COUNT;
      CommitOfNewEpoch(p, db, s);
      EpochAdded(p, db, key, db');
    }
  }

  lemma CommitKeepsSeeder(p: Plan, db: Tables, s: Seeder)
    requires SeederOk(p, db, s) && s.epoch < EPOCH_COUNT
    requires Grows(db, Committed(db, s)) && EpochKey(s.tenant, s.epoch) in Committed(db, s).epochs
    ensures SeederOk(p, Committed(db, s), NextEpoch(p, s))
  {
    forall e | 0 <= e < s.epoch + 1 ensures EpochKey(s.tenant, e) in Committed(db, s).epochs {
      assert e < s.epoch ==> EpochKey(s.tenant, e) in db.epochs;
    }
  }

  lemma OthersSurviveCommit(p: Plan, st: State, i: nat, j: nat)
    requires Inv(p, st) && i < |st.seeders| && j < |st.seeders| && i != j
    requires Grows(st.db, Committed(st.db, st.seeders[i]))
    ensures SeederOk(p, Committed(st.db, st.seeders[i]), st.seeders[j])
  {
    var s, o := st.seeders[i], st.seeders[j];
    forall k | k in o.ownEpochs ensures k !in Committed(st.db, s).epochs {
      assert SeederOk(p, st.db, o);
      assert if i < j then !(k in s.ownEpochs && k in o.ownEpochs) else !(k in o.ownEpochs && k in s.ownEpochs);
    }
    SeederUndisturbed(p, st.db, Committed(st.db, s), o);
  }

  lemma CommitKeepsExclusive(p: Plan, st: State, i: nat)
    requires Exclusive(st) && i < |st.seeders|
    ensures Exclusive(Commit(p, st, i))
  {
    var st' := Commit(p, st, i);
    forall a, b, k | 0 <= a < b < |st'.seeders| && k in st'.seeders[a].ownEpochs
      ensures k !in st'.seeders[b].ownEpochs
    {
      assert k in st.seeders[a].ownEpochs ==> k !in st.seeders[b].ownEpochs;
    }
  }

  lemma CommitKeeps(p: Plan, st: State, i: nat)
    requires Inv(p, st) && i < |st.seeders|
    requires st.seeders[i].phase.Inserting?
    requires st.seeders[i].phase.next == |p.rows(st.seeders[i].tenant, st.seeders[i].epoch)|
    ensures Inv(p, Commit(p, st, i)) && Grows(st.db, Commit(p, st, i).db)
  {
    var s, st', db' := st.seeders[i], Commit(p, st, i), Committed(st.db, st.seeders[i]);
    assert SeederOk(p, st.db, s);
    CommitIsSound(p, st.db, s);
    CommitKeepsSeeder(p, st.db, s);
    CommitKeepsExclusive(p, st, i);
    forall j | 0 <= j < |st'.seeders| ensures SeederOk(p, db', st'.seeders[j]) {
      if j != i {
        OthersSurviveCommit(p, st, i, j);
      }
    }
    forall j | 0 <= j < |st'.readers| ensures ReaderOk(p, db', st'.readers[j]) {
      ReaderUndisturbed(p, st.db, db', st.readers[j]);
    }
  }

  lemma SeederStepKeeps(p: Plan, st: State, i: nat)
    requires Inv(p, st) && i < |st.seeders|
    ensures Inv(p, SeederStep(p, st, i)) && Grows(st.db, SeederStep(p, st, i).db)
  {
    var s := st.seeders[i];
    match s.phase
    case Ready =>
      SeederReplaced(p, st, i, s.(phase := Checked(EpochKey(s.tenant, s.epoch) in st.db.epochs)));
    case Checked(present) =>
      if present {
        SeederReplaced(p, st, i, s.(phase := Inserting(0, 0, 0)));
      } else {
        InsertEpochKeeps(p, st, i);
      }
    case Inserting(next, _, _) =>
      if next < |p.rows(s.tenant, s.epoch)| {
        InsertBatchKeeps(p, st, i);
      } else {
        CommitKeeps(p, st, i);
      }
    case Finished =>
    case Stopped =>
  }

  // ---------------------------------------------------------------------------
  // Steps of a reader
  // ---------------------------------------------------------------------------

  function LeavesOf(rows: seq<Row>): (leaves: seq<(int, Bytes)>)
    ensures |leaves| == |rows|
    ensures forall i :: 0 <= i < |rows| ==> leaves[i] == (rows[i].0.h3, rows[i].1.contentHash)
  {
    seq(|rows|, i requires 0 <= i < |rows| => (rows[i].0.h3, rows[i].1.contentHash))
  }

  function KeysOf(rows: seq<Row>): (keys: seq<int>)
    ensures |keys| == |rows| && forall i :: 0 <= i < |rows| ==> keys[i] == rows[i].0.h3
  {
    seq(|rows|, i requires 0 <= i < |rows| => rows[i].0.h3)
  }

  lemma StoredCellIsRow(p: Plan, db: Tables, c: CellKey) returns (i: nat)
    requires Sound(p, db) && c in db.cells
    ensures EpochKey(c.tenant, c.epoch) in db.epochs
    ensures i < |p.rows(c.tenant, c.epoch)| && p.rows(c.tenant, c.epoch)[i] == (c, db.cells[c])
  {
    var rows := p.rows(c.tenant, c.epoch);
    assert CellSound(p, db, c);
    WholeTable(rows, c.tenant, c.epoch);
    i :| 0 <= i < |rows| && rows[i].0 == c;
  }

  lemma RowIsStored(p: Plan, db: Tables, tenant: TenantId, epoch: int, i: nat)
    requires Sound(p, db) && EpochKey(tenant, epoch) in db.epochs && i < |p.rows(tenant, epoch)|
    ensures p.rows(tenant, epoch)[i].0 in db.cells
    ensures db.cells[p.rows(tenant, epoch)[i].0] == p.rows(tenant, epoch)[i].1
  {
    var rows := p.rows(tenant, epoch);
    assert CellSound(p, db, rows[i].0);
    WholeTable(rows, tenant, epoch);
  }

  /** The stored keys of an epoch, in order, are the planned keys. */
  lemma StoredKeysInOrder(p: Plan, db: Tables, tenant: TenantId, epoch: int)
    requires Sound(p, db) && EpochKey(tenant, epoch) in db.epochs
    ensures InOrder(EpochKeys(db, tenant, epoch)) == KeysOf(p.rows(tenant, epoch))
  {
    var rows, keys := p.rows(tenant, epoch), KeysOf(p.rows(tenant, epoch));
    forall x ensures x in keys <==> x in EpochKeys(db, tenant, epoch) {
      if x in keys {
        var i: nat :| i < |keys| && keys[i] == x;
        RowIsStored(p, db, tenant, epoch, i);
        assert rows[i].0 == CellKey(tenant, x, epoch);
      }
      if x in EpochKeys(db, tenant, epoch) {
        var i := StoredCellIsRow(p, db, CellKey(tenant, x, epoch));
        assert keys[i] == x;
      }
    }
    InOrderIsUnique(keys, EpochKeys(db, tenant, epoch));
  }

  lemma StoredLeaves(p: Plan, db: Tables, tenant: TenantId, epoch: int)
    requires Sound(p, db) && EpochKey(tenant, epoch) in db.epochs
    ensures EpochLeaves(db, tenant, epoch) == LeavesOf(p.rows(tenant, epoch))
  {
    var rows := p.rows(tenant, epoch);
    StoredKeysInOrder(p, db, tenant, epoch);
    forall i | 0 <= i < |rows| ensures EpochLeaves(db, tenant, epoch)[i] == LeavesOf(rows)[i] {
      RowIsStored(p, db, tenant, epoch, i);
      assert rows[i].0 == CellKey(tenant, rows[i].0.h3, epoch);
    }
  }

  lemma AnswerIsTrueBundle(p: Plan, tenant: TenantId, epoch: int, i: nat)
    requires ValidPlan(p) && i < |p.rows(tenant, epoch)|
    ensures var rows := p.rows(tenant, epoch);
      Answer(p.h, rows[i].0, rows[i].1, SealedEpoch(p, tenant, epoch), LeavesOf(rows))
      == Ok(TrueBundle(p, tenant, epoch, i))
  {
    var rows := p.rows(tenant, epoch);
    var leaves := LeavesOf(rows);
    assert FirstIndex(leaves, rows[i].0.h3) == i;
    assert Hashes(leaves) == ContentHashes(rows);
  }

  lemma ReaderStepKeeps(p: Plan, db: Tables, r: Reader)
    requires Sound(p, db) && ReaderOk(p, db, r)
    ensures ReaderOk(p, db, ReaderStep(p.h, db, r))
    ensures r.key in db.cells && !(r.phase.Answered? && r.phase.result.Err?) ==>
      !(ReaderStep(p.h, db, r).phase.Answered? && ReaderStep(p.h, db, r).phase.result.Err?)
  {
    if r.key in db.cells {
      var i := StoredCellIsRow(p, db, r.key);
      if r.phase.HaveEpoch? {
        StoredLeaves(p, db, r.key.tenant, r.key.epoch);
        AnswerIsTrueBundle(p, r.key.tenant, r.key.epoch, i);
      }
    }
  }

  // ---------------------------------------------------------------------------
  // Every schedule
  // ---------------------------------------------------------------------------

  lemma StepKeeps(p: Plan, st: State, a: Action)
    requires Inv(p, st)
    ensures Inv(p, Step(p, st, a)) && Grows(st.db, Step(p, st, a).db)
  {
    hide ReaderStep, SeederStep, Stop, Sound, Exclusive, ReaderOk, SeederOk;
    match a
    case StartSeeder(tenant) => SeederAdded(p, st, tenant);
    case StepSeeder(i) =>
      if i < |st.seeders| {
        SeederStepKeeps(p, st, i);
      }
    case StopSeeder(i) =>
      if i < |st.seeders| {
        StoppedIsOk(p, st, i);
        SeederReplaced(p, st, i, Stop(st.seeders[i]));
      }
    case StartReader(key) => ReaderAdded(p, st, key);
    case StepReader(i) =>
      if i < |st.readers| {
        ReaderStepKeeps(p, st.db, st.readers[i]);
        ReaderReplaced(p, st, i, ReaderStep(p.h, st.db, st.readers[i]));
      }
  }

  lemma ReaderReplaced(p: Plan, st: State, i: nat, r: Reader)
    requires Inv(p, st) && i < |st.readers| && ReaderOk(p, st.db, r)
    ensures Inv(p, st.(readers := st.readers[i := r]))
  {
  }

  lemma SeederAdded(p: Plan, st: State, tenant: TenantId)
    requires Inv(p, st)
    ensures Inv(p, Step(p, st, StartSeeder(tenant)))
  {
  }

  lemma ReaderAdded(p: Plan, st: State, key: CellKey)
    requires Inv(p, st)
    ensures Inv(p, Step(p, st, StartReader(key)))
  {
  }

  lemma StoppedIsOk(p: Plan, st: State, i: nat)
    requires Inv(p, st) && i < |st.seeders|
    ensures SeederOk(p, st.db, Stop(st.seeders[i]))
    ensures Stop(st.seeders[i]).ownEpochs == map[]
  {
  }

  lemma {:induction false} RunKeeps(p: Plan, st: State, schedule: seq<Action>)
    requires Inv(p, st)
    ensures Inv(p, Run(p, st, schedule)) && Grows(st.db, Run(p, st, schedule).db)
    decreases |schedule|
  {
    if schedule == [] {
    } else {
      StepKeeps(p, st, schedule[0]);
      RunKeeps(p, Step(p, st, schedule[0]), schedule[1..]);
    }
  }

  lemma ReachableIsSound(p: Plan, schedule: seq<Action>)
    requires ValidPlan(p)
    ensures Inv(p, Run(p, EMPTY, schedule))
  {
    RunKeeps(p, EMPTY, schedule);
  }
}
