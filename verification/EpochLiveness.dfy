/** What happens eventually: readers that are given their turns answer, and a tenant can always be seeded. */
module EpochLiveness {
  import opened Provenance
  import opened EpochTables
  import opened EpochMachine
  import opened EpochProofs
  import opened EpochTheorems

  // ---------------------------------------------------------------------------
  // Readers
  // ---------------------------------------------------------------------------

  /** How many statements a reader has behind it. */
  function Progress(phase: ReaderPhase): nat {
    match phase
    case Start => 0
    case HaveCell(_) => 1
    case HaveAttestations(_) => 2
    case HaveEpoch(_, _) => 3
    case Answered(_) => 4
  }

  function Turns(schedule: seq<Action>, n: nat): nat {
    if schedule == [] then 0 else (if schedule[0] == StepReader(n) then 1 else 0) + Turns(schedule[1..], n)
  }

  lemma StepProgress(p: Plan, st: State, a: Action, n: nat)
    requires Inv(p, st) && n < |st.readers|
    ensures n < |Step(p, st, a).readers|
    ensures var before, after := Progress(st.readers[n].phase), Progress(Step(p, st, a).readers[n].phase);
      after >= before && (a == StepReader(n) ==> after > before || after == 4)
  {
    match a {
      case StepSeeder(i) =>
        if i < |st.seeders| {
          SeedersLeaveReaders(p, st, i);
        }
      case _ =>
    }
  }

  lemma {:induction false} RunProgress(p: Plan, st: State, schedule: seq<Action>, n: nat)
    requires Inv(p, st) && n < |st.readers|
    requires Progress(st.readers[n].phase) + Turns(schedule, n) >= 4
    ensures n < |Run(p, st, schedule).readers| && Run(p, st, schedule).readers[n].phase.Answered?
    decreases |schedule|
  {
    if schedule == [] {
    } else {
      StepProgress(p, st, schedule[0], n);
      StepKeeps(p, st, schedule[0]);
      RunProgress(p, Step(p, st, schedule[0]), schedule[1..], n);
    }
  }

  /** A read of a stored cell that gets its four turns has its bundle, whatever runs in between. */
  lemma FourTurnsAnswer(p: Plan, before: seq<Action>, key: CellKey, after: seq<Action>)
    requires ValidPlan(p) && key in Run(p, EMPTY, before).db.cells
    requires Turns(after, |Run(p, EMPTY, before).readers|) >= 4
    ensures var st := Run(p, EMPTY, before);
      var end := Run(p, Step(p, st, StartReader(key)), after);
      && |st.readers| < |end.readers|
      && end.readers[|st.readers|].key == key
      && end.readers[|st.readers|].phase.Answered?
      && end.readers[|st.readers|].phase.result.Ok?
  {
    StoredCellIsAnswered(p, before, key, after);
    ReachableIsSound(p, before);
    var st := Run(p, EMPTY, before);
    StepKeeps(p, st, StartReader(key));
    RunProgress(p, Step(p, st, StartReader(key)), after, |st.readers|);
  }

  // ---------------------------------------------------------------------------
  // Seeders
  // ---------------------------------------------------------------------------

  lemma {:induction false} RunAppend(p: Plan, st: State, a: seq<Action>, b: seq<Action>)
    ensures Run(p, st, a + b) == Run(p, Run(p, st, a), b)
    decreases |a|
  {
    if a == [] {
      assert a + b == b;
    } else {
      assert (a + b)[1..] == a[1..] + b;
      RunAppend(p, Step(p, st, a[0]), a[1..], b);
    }
  }

  predicate HoldsNothing(s: Seeder) {
    s.ownEpochs == map[] && s.ownCells == map[]
  }

  /** No other seeder is in the middle of a transaction with writes. */
  predicate Alone(st: State, i: nat) {
    i < |st.seeders| && forall j :: 0 <= j < |st.seeders| && j != i ==> HoldsNothing(st.seeders[j])
  }

  /** A seeder at work, whose look at the epoch is still true. */
  ghost predicate Working(st: State, i: nat)
    requires i < |st.seeders|
  {
    var s := st.seeders[i];
    && !s.phase.Stopped?
    && (s.phase == Checked(false) ==> EpochKey(s.tenant, s.epoch) !in st.db.epochs)
  }

  function PhasesLeft(phase: SeederPhase): nat {
    match phase
    case Ready => 2
    case Checked(_) => 1
    case _ => 0
  }

  function RowsLeft(p: Plan, s: Seeder): nat {
    if s.phase.Inserting? && s.phase.next <= |p.rows(s.tenant, s.epoch)|
    then |p.rows(s.tenant, s.epoch)| - s.phase.next
    else 0
  }

  lemma NothingLocked(st: State, i: nat, key: EpochKey, rows: seq<Row>)
    requires Alone(st, i)
    ensures !EpochLocked(st, i, key) && !CellsLocked(st, i, rows)
  {
  }

  /** On its own, every step of a seeder that is not finished gets it further. */
  lemma SeederAdvances(p: Plan, st: State, i: nat)
    requires Inv(p, st) && Alone(st, i) && Working(st, i) && !st.seeders[i].phase.Finished?
    ensures var st' := SeederStep(p, st, i);
      && Alone(st', i) && Working(st', i)
      && var s, s' := st.seeders[i], st'.seeders[i];
      && s'.tenant == s.tenant
      && s.epoch <= s'.epoch <= EPOCH_COUNT
      && (s'.epoch == s.epoch ==> PhasesLeft(s'.phase) <= PhasesLeft(s.phase))
      && (s'.epoch == s.epoch && PhasesLeft(s'.phase) == PhasesLeft(s.phase) ==> RowsLeft(p, s') < RowsLeft(p, s))
  {
    var s := st.seeders[i];
    assert SeederOk(p, st.db, s);
    var rows := p.rows(s.tenant, s.epoch);
    if s.phase.Inserting? && s.phase.next < |rows| {
      NothingLocked(st, i, EpochKey(s.tenant, s.epoch), rows[s.phase.next..BatchEnd(p, s)]);
    } else {
      NothingLocked(st, i, EpochKey(s.tenant, s.epoch), []);
    }
  }

  lemma {:induction false} AloneFinishes(p: Plan, st: State, i: nat) returns (schedule: seq<Action>)
    requires Inv(p, st) && Alone(st, i) && Working(st, i)
    ensures var end := Run(p, st, schedule);
      i < |end.seeders| && end.seeders[i].phase.Finished? && end.seeders[i].tenant == st.seeders[i].tenant
    decreases EPOCH_COUNT - st.seeders[i].epoch, PhasesLeft(st.seeders[i].phase), RowsLeft(p, st.seeders[i])
  {
    assert SeederOk(p, st.db, st.seeders[i]);
    if st.seeders[i].phase.Finished? {
      schedule := [];
    } else {
      SeederAdvances(p, st, i);
      StepKeeps(p, st, StepSeeder(i));
      var rest := AloneFinishes(p, Step(p, st, StepSeeder(i)), i);
      schedule := [StepSeeder(i)] + rest;
      assert schedule[1..] == rest;
    }
  }

  /** Cutting off the first n seeders. */
  lemma {:induction false} StopFirst(p: Plan, st: State, n: nat) returns (schedule: seq<Action>)
    requires Inv(p, st) && n <= |st.seeders|
    ensures Inv(p, Run(p, st, schedule))
    ensures |Run(p, st, schedule).seeders| == |st.seeders|
    ensures forall j :: 0 <= j < n ==> HoldsNothing(Run(p, st, schedule).seeders[j])
  {
    hide Inv, SeederStep, ReaderStep;
    if n == 0 {
      schedule := [];
    } else {
      var before := StopFirst(p, st, n - 1);
      schedule := before + [StopSeeder(n - 1)];
      RunAppend(p, st, before, [StopSeeder(n - 1)]);
      var mid := Run(p, st, before);
      StepKeeps(p, mid, StopSeeder(n - 1));
      assert Run(p, mid, [StopSeeder(n - 1)]) == Step(p, mid, StopSeeder(n - 1));
    }
  }

  /** From wherever the store has got to, some schedule completes the seeding of any tenant. */
  lemma SeedingCanComplete(p: Plan, before: seq<Action>, tenant: TenantId) returns (after: seq<Action>, i: nat)
    requires ValidPlan(p)
    ensures var end := Run(p, EMPTY, before + after);
      i < |end.seeders| && end.seeders[i].phase.Finished? && end.seeders[i].tenant == tenant
  {
    ReachableIsSound(p, before);
    var st := Run(p, EMPTY, before);
    var stops := StopFirst(p, st, |st.seeders|);
    var quiet := Run(p, st, stops);
    var start := StartSeeder(tenant);
    StepKeeps(p, quiet, start);
    var started := Step(p, quiet, start);
    i := |quiet.seeders|;
    assert started.seeders[i] == NewSeeder(tenant);
    var work := AloneFinishes(p, started, i);
    after := stops + ([start] + work);
    assert ([start] + work)[1..] == work;
    RunAppend(p, EMPTY, before, after);
    RunAppend(p, st, stops, [start] + work);
  }
}
