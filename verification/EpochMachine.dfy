/**
 Any number of seeder processes and provenance readers over one database, at the grain of single
 statements. A transaction's writes stay its own until it commits; a statement sees what is committed
 when it runs, plus the writes of its own transaction (READ COMMITTED).
 */
module EpochMachine {
  import opened Bytes
  import opened Merkle
  import opened EpochTree
  import opened Sorting
  import opened Provenance
  import opened EpochTables

  datatype Tables = Tables(epochs: map<EpochKey, EpochRow>, cells: CellMap)

  // ---------------------------------------------------------------------------
  // Seeders
  // ---------------------------------------------------------------------------

  /** Where a seeder stands in write_epoch. Stopped covers crashes and database errors alike. */
  datatype SeederPhase =
    | Ready
    | Checked(present: bool)
    | Inserting(next: nat, inserted: nat, skipped: nat)
    | Finished
    | Stopped

  datatype Seeder = Seeder(
    tenant: TenantId, epoch: nat, parent: Option<Digest>, phase: SeederPhase,
    ownEpochs: map<EpochKey, EpochRow>, ownCells: CellMap)

  function NewSeeder(tenant: TenantId): Seeder {
    Seeder(tenant, 0, None, Ready, map[], map[])
  }

  function Stop(s: Seeder): Seeder {
    s.(phase := Stopped, ownEpochs := map[], ownCells := map[])
  }

  function Min(a: nat, b: nat): nat {
    if a < b then a else b
  }

  // ---------------------------------------------------------------------------
  // Readers
  // ---------------------------------------------------------------------------

  datatype ReadError = CellNotFound | EpochMissing | NoProof(ProofError)

  /** Which of the four statements of get_provenance have run, and what they returned. */
  datatype ReaderPhase =
    | Start
    | HaveCell(cell: CellRow)
    | HaveAttestations(cell: CellRow)
    | HaveEpoch(cell: CellRow, epoch: EpochRow)
    | Answered(result: Result<Bundle, ReadError>)

  datatype Reader = Reader(key: CellKey, phase: ReaderPhase)

  ghost function EpochKeys(db: Tables, tenant: TenantId, epoch: int): set<int> {
    set c | c in db.cells && c.tenant == tenant && c.epoch == epoch :: c.h3
  }

  /** SELECT h3_cell, content_hash ... ORDER BY h3_cell ASC. */
  ghost function EpochLeaves(db: Tables, tenant: TenantId, epoch: int): (leaves: seq<(int, Bytes)>)
    ensures var keys := InOrder(EpochKeys(db, tenant, epoch));
      && |leaves| == |keys|
      && forall i :: 0 <= i < |leaves| ==>
           CellKey(tenant, keys[i], epoch) in db.cells
           && leaves[i] == (keys[i], db.cells[CellKey(tenant, keys[i], epoch)].contentHash)
  {
    var keys := InOrder(EpochKeys(db, tenant, epoch));
    assert forall i :: 0 <= i < |keys| ==> keys[i] in EpochKeys(db, tenant, epoch);
    seq(|keys|, i requires 0 <= i < |keys| => (keys[i], db.cells[CellKey(tenant, keys[i], epoch)].contentHash))
  }

  /** The part of get_provenance after its last statement. */
  function Answer(h: HashFn, key: CellKey, cell: CellRow, epoch: EpochRow, leaves: seq<(int, Bytes)>)
    : Result<Bundle, ReadError>
  {
    match HonestProof(h, leaves, key.h3)
    case Err(e) => Err(NoProof(e))
    case Ok(proof) =>
      var i := FirstIndex(leaves, key.h3);
      if i == |leaves| then Err(CellNotFound) else Ok(Bundle(key, cell, proof, i, epoch))
  }

  ghost function ReaderStep(h: HashFn, db: Tables, r: Reader): Reader {
    match r.phase
    case Start =>
      if r.key in db.cells then r.(phase := HaveCell(db.cells[r.key])) else r.(phase := Answered(Err(CellNotFound)))
    case HaveCell(cell) => r.(phase := HaveAttestations(cell))
    case HaveAttestations(cell) =>
      var k := EpochKey(r.key.tenant, r.key.epoch);
      if k in db.epochs then r.(phase := HaveEpoch(cell, db.epochs[k])) else r.(phase := Answered(Err(EpochMissing)))
    case HaveEpoch(cell, epoch) =>
      r.(phase := Answered(Answer(h, r.key, cell, epoch, EpochLeaves(db, r.key.tenant, r.key.epoch))))
    case Answered(_) => r
  }

  // ---------------------------------------------------------------------------
  // The system
  // ---------------------------------------------------------------------------

  datatype State = State(db: Tables, seeders: seq<Seeder>, readers: seq<Reader>)

  const EMPTY := State(Tables(map[], map[]), [], [])

  /** Another open transaction holds this key, so an insert of it has to wait. */
  predicate EpochLocked(st: State, i: nat, key: EpochKey) {
    exists j :: 0 <= j < |st.seeders| && j != i && key in st.seeders[j].ownEpochs
  }

  predicate CellsLocked(st: State, i: nat, rows: seq<Row>) {
    exists j, n :: 0 <= j < |st.seeders| && j != i && 0 <= n < |rows| && rows[n].0 in st.seeders[j].ownCells
  }

  function WithSeeder(st: State, i: nat, s: Seeder): State
    requires i < |st.seeders|
  {
    st.(seeders := st.seeders[i := s])
  }

  /** INSERT INTO epochs: waits for a lock, fails on a committed key, and otherwise takes the key. */
  function InsertEpoch(p: Plan, st: State, i: nat): State
    requires i < |st.seeders|
  {
    var s := st.seeders[i];
    var key := EpochKey(s.tenant, s.epoch);
    if EpochLocked(st, i, key) then st
    else if key in st.db.epochs then WithSeeder(st, i, Stop(s))
    else
      var row := EpochRow(SealedAt(s.epoch), RootOf(p, s.tenant, s.epoch), s.parent, |p.rows(s.tenant, s.epoch)|);
      WithSeeder(st, i, s.(phase := Inserting(0, 0, 0), ownEpochs := map[key := row]))
  }

  function BatchEnd(p: Plan, s: Seeder): (end: nat)
    requires s.phase.Inserting? && s.phase.next <= |p.rows(s.tenant, s.epoch)|
    ensures s.phase.next <= end <= |p.rows(s.tenant, s.epoch)|
  {
    Min(s.phase.next + BATCH_SIZE, |p.rows(s.tenant, s.epoch)|)
  }

  /** The batch's effect on the seeder: rows_affected is what its own writes grew by. */
  function AfterBatch(p: Plan, db: Tables, s: Seeder): Seeder
    requires s.phase.Inserting? && s.phase.next <= |p.rows(s.tenant, s.epoch)|
  {
    var batch := p.rows(s.tenant, s.epoch)[s.phase.next..BatchEnd(p, s)];
    var own := InsertRows(db.cells, s.ownCells, batch);
    InsertRowsGrows(db.cells, s.ownCells, batch);
    var affected := |own| - |s.ownCells|;
    s.(phase := Inserting(BatchEnd(p, s), s.phase.inserted + affected, s.phase.skipped + |batch| - affected),
       ownCells := own)
  }

  /** One batch of INSERT INTO cell_states ... ON CONFLICT DO NOTHING. */
  function InsertBatch(p: Plan, st: State, i: nat): State
    requires i < |st.seeders| && st.seeders[i].phase.Inserting?
    requires st.seeders[i].phase.next <= |p.rows(st.seeders[i].tenant, st.seeders[i].epoch)|
  {
    var s := st.seeders[i];
    if CellsLocked(st, i, p.rows(s.tenant, s.epoch)[s.phase.next..BatchEnd(p, s)]) then st
    else WithSeeder(st, i, AfterBatch(p, st.db, s))
  }

  lemma {:induction false} InsertRowsGrows(committed: CellMap, own: CellMap, rows: seq<Row>)
    ensures |own| <= |InsertRows(committed, own, rows)| <= |own| + |rows|
    decreases |rows|
  {
    if rows == [] {
    } else {
      InsertRowsGrows(committed,
        if rows[0].0 in committed || rows[0].0 in own then own else own[rows[0].0 := rows[0].1], rows[1..]);
    }
  }

  function Committed(db: Tables, s: Seeder): Tables {
    Tables(db.epochs + s.ownEpochs, db.cells + s.ownCells)
  }

  /** On to the next epoch with this epoch's root as parent. */
  function NextEpoch(p: Plan, s: Seeder): Seeder {
    Seeder(s.tenant, s.epoch + 1, Some(RootOf(p, s.tenant, s.epoch)),
           if s.epoch + 1 < EPOCH_COUNT then Ready else Finished, map[], map[])
  }

  function Commit(p: Plan, st: State, i: nat): State
    requires i < |st.seeders|
  {
    WithSeeder(st.(db := Committed(st.db, st.seeders[i])), i, NextEpoch(p, st.seeders[i]))
  }

  function SeederStep(p: Plan, st: State, i: nat): State
    requires i < |st.seeders|
  {
    var s := st.seeders[i];
    match s.phase
    case Ready => WithSeeder(st, i, s.(phase := Checked(EpochKey(s.tenant, s.epoch) in st.db.epochs)))
    case Checked(true) => WithSeeder(st, i, s.(phase := Inserting(0, 0, 0)))
    case Checked(false) => InsertEpoch(p, st, i)
    case Inserting(next, _, _) =>
      if next < |p.rows(s.tenant, s.epoch)| then InsertBatch(p, st, i) else Commit(p, st, i)
    case Finished => st
    case Stopped => st
  }

  /** A scheduler's choice. Choices that name no process do nothing. */
  datatype Action =
    | StartSeeder(tenant: TenantId)
    | StepSeeder(i: nat)
    | StopSeeder(i: nat)
    | StartReader(key: CellKey)
    | StepReader(i: nat)

  ghost function Step(p: Plan, st: State, a: Action): State {
    match a
    case StartSeeder(tenant) => st.(seeders := st.seeders + [NewSeeder(tenant)])
    case StepSeeder(i) => if i < |st.seeders| then SeederStep(p, st, i) else st
    case StopSeeder(i) => if i < |st.seeders| then WithSeeder(st, i, Stop(st.seeders[i])) else st
    case StartReader(key) => st.(readers := st.readers + [Reader(key, Start)])
    case StepReader(i) =>
      if i < |st.readers| then st.(readers := st.readers[i := ReaderStep(p.h, st.db, st.readers[i])]) else st
  }

  /** The state after a schedule. Every interleaving is some schedule. */
  ghost function Run(p: Plan, st: State, schedule: seq<Action>): State
    decreases |schedule|
  {
    if schedule == [] then st else Run(p, Step(p, st, schedule[0]), schedule[1..])
  }

  // ---------------------------------------------------------------------------
  // The invariant
  // ---------------------------------------------------------------------------

  /** Epochs are committed in seeding order, each exactly as the seeder is bound to write it. */
  ghost predicate EpochsSound(p: Plan, epochs: map<EpochKey, EpochRow>) {
    forall k :: k in epochs ==>
      && 0 <= k.epoch < EPOCH_COUNT
      && epochs[k] == SealedEpoch(p, k.tenant, k.epoch)
      && (k.epoch > 0 ==> EpochKey(k.tenant, k.epoch - 1) in epochs)
  }

  /** A cell row is there exactly when its epoch is, and it is the row the seeder is bound to write. */
  ghost predicate CellSound(p: Plan, db: Tables, c: CellKey) {
    && (c in db.cells <==> EpochKey(c.tenant, c.epoch) in db.epochs && c in TableOf(p.rows(c.tenant, c.epoch)))
    && (c in db.cells ==> db.cells[c] == TableOf(p.rows(c.tenant, c.epoch))[c])
  }

  ghost predicate Sound(p: Plan, db: Tables) {
    ValidPlan(p) && EpochsSound(p, db.epochs) && forall c :: CellSound(p, db, c)
  }

  ghost predicate SeederOk(p: Plan, db: Tables, s: Seeder) {
    var key, rows := EpochKey(s.tenant, s.epoch), p.rows(s.tenant, s.epoch);
    && s.epoch <= EPOCH_COUNT
    && s.parent == ParentOf(p, s.tenant, s.epoch)
    && (forall e :: 0 <= e < s.epoch ==> EpochKey(s.tenant, e) in db.epochs)
    && (s.phase.Finished? ==> s.epoch == EPOCH_COUNT)
    && (s.phase.Ready? || s.phase.Checked? || s.phase.Inserting? ==> s.epoch < EPOCH_COUNT)
    && (s.phase == Checked(true) ==> key in db.epochs)
    && (!s.phase.Inserting? ==> s.ownEpochs == map[] && s.ownCells == map[])
    && (s.phase.Inserting? ==>
          && s.phase.next <= |rows|
          && s.phase.inserted + s.phase.skipped == s.phase.next
          && (if key in db.epochs
              then s.ownEpochs == map[] && s.ownCells == map[] && s.phase.inserted == 0
              else s.ownEpochs == map[key := SealedEpoch(p, s.tenant, s.epoch)]
                   && s.ownCells == TableOf(rows[..s.phase.next]) && s.phase.skipped == 0))
  }

  /** Two open transactions never hold one epoch. */
  ghost predicate Exclusive(st: State) {
    forall i, j, k :: 0 <= i < j < |st.seeders| ==> !(k in st.seeders[i].ownEpochs && k in st.seeders[j].ownEpochs)
  }

  /** The one bundle there is for the i-th cell of an epoch. */
  function TrueBundle(p: Plan, tenant: TenantId, epoch: int, i: nat): Bundle
    requires i < |p.rows(tenant, epoch)|
  {
    var rows := p.rows(tenant, epoch);
    Bundle(rows[i].0, rows[i].1, Path(NodeHash(p.h), ContentHashes(rows), i), i, SealedEpoch(p, tenant, epoch))
  }

  ghost predicate IsTrueBundle(p: Plan, key: CellKey, b: Bundle) {
    exists i: nat ::
      i < |p.rows(key.tenant, key.epoch)| && b == TrueBundle(p, key.tenant, key.epoch, i) && b.cellKey == key
  }

  ghost predicate ReaderOk(p: Plan, db: Tables, r: Reader) {
    match r.phase
    case Start => true
    case HaveCell(cell) => r.key in db.cells && cell == db.cells[r.key]
    case HaveAttestations(cell) => r.key in db.cells && cell == db.cells[r.key]
    case HaveEpoch(cell, epoch) =>
      && r.key in db.cells && cell == db.cells[r.key]
      && epoch == SealedEpoch(p, r.key.tenant, r.key.epoch)
    case Answered(Ok(b)) => r.key in db.cells && IsTrueBundle(p, r.key, b)
    case Answered(Err(e)) => e == CellNotFound
  }

  ghost predicate Inv(p: Plan, st: State) {
    && Sound(p, st.db)
    && (forall i :: 0 <= i < |st.seeders| ==> SeederOk(p, st.db, st.seeders[i]))
    && Exclusive(st)
    && (forall i :: 0 <= i < |st.readers| ==> ReaderOk(p, st.db, st.readers[i]))
  }
}
