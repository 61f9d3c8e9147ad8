/**
 crates/mobydb-client/src/postgres.rs and migrations/0001_initial_schema.sql: requests of many tenants
 share pooled connections; a session variable names the tenant, and row-level security filters by it.
 */
module Tenancy {
  import opened Bytes
  import opened Provenance
  import opened EpochTables

  /** current_setting(name, true): NULL before the variable was ever set on the connection, and the empty
      text once a value that was local to a transaction has been dropped again. */
  datatype Setting = Null | Empty | Of(tenant: TenantId)

  /** The third argument of set_config. The code passes true. */
  datatype Scope = Transaction | Session

  datatype DbError = NotAUuid

  type Where = (CellKey, CellRow) -> bool

  /** The rows of one tenant that a WHERE clause picks. */
  function Own(table: CellMap, tenant: TenantId, where: Where): CellMap {
    map k | k in table && k.tenant == tenant && where(k, table[k]) :: table[k]
  }

  /** A SELECT under the policy tenant_id = current_setting(...)::uuid. A comparison with NULL holds of no
      row, and casting the empty text is an error. */
  function Select(table: CellMap, setting: Setting, where: Where): Result<CellMap, DbError> {
    match setting
    case Null => Ok(map[])
    case Empty => Err(NotAUuid)
    case Of(tenant) => Ok(Own(table, tenant, where))
  }

  /** A pooled connection: the session's value, the open transaction's own value, and who holds it. */
  datatype Connection = Connection(session: Setting, transaction: Option<TenantId>, holder: Option<nat>)

  function Visible(c: Connection): Setting {
    match c.transaction case Some(tenant) => Of(tenant) case None => c.session
  }

  function SetConfig(scope: Scope, c: Connection, tenant: TenantId): Connection {
    match scope
    case Transaction => c.(transaction := Some(tenant))
    case Session => c.(session := Of(tenant))
  }

  /** The transaction is over and the connection goes back to the pool. */
  function Released(c: Connection): Connection {
    Connection(if c.session.Null? && c.transaction.Some? then Empty else c.session, None, None)
  }

  /** One answered SELECT, with the table as it was. */
  datatype Read = Read(table: CellMap, where: Where, result: Result<CellMap, DbError>)

  datatype Phase =
    | Waiting
    | Begun(conn: nat)
    | Running(conn: nat)
    | Closed

  /** A request passes its tenant to tx_with_tenant; one without a tenant queries the pool directly. */
  datatype Request = Request(tenant: Option<TenantId>, phase: Phase, answers: seq<Read>)

  datatype System = System(table: CellMap, pool: seq<Connection>, requests: seq<Request>)

  datatype Action =
    | Arrive(tenant: Option<TenantId>)
    | Begin(r: nat, c: nat)
    | SetTenant(r: nat)
    | Query(r: nat, where: Where)
    | End(r: nat)
    | Replace(c: nat)
    | Write(table: CellMap)

  const FRESH := Connection(Null, None, None)

  function NewSystem(poolSize: nat): (sys: System)
    ensures |sys.pool| == poolSize && forall c :: 0 <= c < poolSize ==> sys.pool[c] == FRESH
  {
    System(map[], seq(poolSize, _ => FRESH), [])
  }

  /** Connection c and request r after a step that touches these two only. */
  function With(sys: System, c: nat, conn: Connection, r: nat, request: Request): System
    requires c < |sys.pool| && r < |sys.requests|
  {
    sys.(pool := sys.pool[c := conn], requests := sys.requests[r := request])
  }

  /** A step of request r on the connection it holds. A step it is not ready for does nothing. */
  function RequestStep(scope: Scope, sys: System, r: nat, a: Action): System
    requires r < |sys.requests|
  {
    var q := sys.requests[r];
    match (a, q.phase)
    case (Begin(_, c), Waiting) =>
      if c < |sys.pool| && sys.pool[c].holder == None
      then With(sys, c, sys.pool[c].(holder := Some(r)), r, q.(phase := Begun(c)))
      else sys
    case (SetTenant(_), Begun(c)) =>
      if c < |sys.pool|
      then With(sys, c, if q.tenant.Some? then SetConfig(scope, sys.pool[c], q.tenant.value) else sys.pool[c],
                r, q.(phase := Running(c)))
      else sys
    case (Query(_, where), Running(c)) =>
      if c < |sys.pool|
      then With(sys, c, sys.pool[c], r, q.(answers := q.answers +
             [Read(sys.table, where, Select(sys.table, Visible(sys.pool[c]), where))]))
      else sys
    case (End(_), Begun(c)) =>
      if c < |sys.pool| then With(sys, c, Released(sys.pool[c]), r, q.(phase := Closed)) else sys
    case (End(_), Running(c)) =>
      if c < |sys.pool| then With(sys, c, Released(sys.pool[c]), r, q.(phase := Closed)) else sys
    case _ => sys
  }

  /** Requests arrive and step, the pool renews idle connections, and the table changes, in any order. */
  function Step(scope: Scope, sys: System, a: Action): System {
    match a
    case Arrive(tenant) => sys.(requests := sys.requests + [Request(tenant, Waiting, [])])
    case Write(table) => sys.(table := table)
    case Replace(c) =>
      if c < |sys.pool| && sys.pool[c].holder == None then sys.(pool := sys.pool[c := FRESH]) else sys
    case _ => if a.r < |sys.requests| then RequestStep(scope, sys, a.r, a) else sys
  }

  function Run(scope: Scope, sys: System, schedule: seq<Action>): System
    decreases |schedule|
  {
    if schedule == [] then sys else Run(scope, Step(scope, sys, schedule[0]), schedule[1..])
  }

  // ---------------------------------------------------------------------------
  // The invariant
  // ---------------------------------------------------------------------------

  function Holding(q: Request): Option<nat> {
    match q.phase case Begun(c) => Some(c) case Running(c) => Some(c) case _ => None
  }

  /** What a read of a request may have returned. */
  predicate ReadScoped(scope: Scope, tenant: Option<TenantId>, read: Read) {
    match tenant
    case Some(t) => read.result == Ok(Own(read.table, t, read.where))
    case None => scope == Transaction ==> read.result == Ok(map[]) || read.result == Err(NotAUuid)
  }

  predicate ConnectionOk(scope: Scope, c: Connection) {
    && (c.holder == None ==> c.transaction == None)
    && (scope == Transaction ==> !c.session.Of?)
  }

  predicate RequestOk(scope: Scope, pool: seq<Connection>, r: nat, q: Request) {
    && (forall i :: 0 <= i < |q.answers| ==> ReadScoped(scope, q.tenant, q.answers[i]))
    && (Holding(q).Some? ==> Holding(q).value < |pool| && pool[Holding(q).value].holder == Some(r))
    && (q.phase.Begun? ==> pool[q.phase.conn].transaction == None)
    && (q.phase.Running? ==>
          match q.tenant
          case Some(t) => Visible(pool[q.phase.conn]) == Of(t)
          case None => pool[q.phase.conn].transaction == None)
  }

  predicate Inv(scope: Scope, sys: System) {
    && (forall c :: 0 <= c < |sys.pool| ==> ConnectionOk(scope, sys.pool[c]))
    && (forall r :: 0 <= r < |sys.requests| ==> RequestOk(scope, sys.pool, r, sys.requests[r]))
  }

  lemma {:induction false} OthersKeep(scope: Scope, sys: System, c: nat, conn: Connection, r: nat, request: Request)
    requires Inv(scope, sys) && c < |sys.pool| && r < |sys.requests|
    requires sys.pool[c].holder == None || sys.pool[c].holder == Some(r)
    requires ConnectionOk(scope, conn) && RequestOk(scope, sys.pool[c := conn], r, request)
    ensures Inv(scope, With(sys, c, conn, r, request))
  {
    var after := With(sys, c, conn, r, request);
    forall i | 0 <= i < |after.requests|
      ensures RequestOk(scope, after.pool, i, after.requests[i])
    {
      if i != r {
        assert RequestOk(scope, sys.pool, i, sys.requests[i]);
      }
    }
  }

  lemma {:induction false} RequestStepKeeps(scope: Scope, sys: System, r: nat, a: Action)
    requires Inv(scope, sys) && r < |sys.requests|
    ensures Inv(scope, RequestStep(scope, sys, r, a))
  {
    var q := sys.requests[r];
    assert RequestOk(scope, sys.pool, r, q);
    match (a, q.phase) {
      case (Begin(_, c), Waiting) =>
        if c < |sys.pool| && sys.pool[c].holder == None {
          OthersKeep(scope, sys, c, sys.pool[c].(holder := Some(r)), r, q.(phase := Begun(c)));
        }
      case (SetTenant(_), Begun(c)) =>
        var conn := if q.tenant.Some? then SetConfig(scope, sys.pool[c], q.tenant.value) else sys.pool[c];
        OthersKeep(scope, sys, c, conn, r, q.(phase := Running(c)));
      case (Query(_, where), Running(c)) =>
        var read := Read(sys.table, where, Select(sys.table, Visible(sys.pool[c]), where));
        assert ReadScoped(scope, q.tenant, read);
        OthersKeep(scope, sys, c, sys.pool[c], r, q.(answers := q.answers + [read]));
      case (End(_), Begun(c)) => OthersKeep(scope, sys, c, Released(sys.pool[c]), r, q.(phase := Closed));
      case (End(_), Running(c)) => OthersKeep(scope, sys, c, Released(sys.pool[c]), r, q.(phase := Closed));
      case _ =>
    }
  }

  lemma {:induction false} StepKeeps(scope: Scope, sys: System, a: Action)
    requires Inv(scope, sys)
    ensures Inv(scope, Step(scope, sys, a))
  {
    match a {
      case Arrive(tenant) =>
        var after := Step(scope, sys, a);
        forall i | 0 <= i < |after.requests|
          ensures RequestOk(scope, after.pool, i, after.requests[i])
        {
          assert i < |sys.requests| ==> RequestOk(scope, sys.pool, i, sys.requests[i]);
        }
      case Write(_) =>
      case Replace(c) =>
        var after := Step(scope, sys, a);
        forall i | 0 <= i < |after.requests|
          ensures RequestOk(scope, after.pool, i, after.requests[i])
        {
          assert RequestOk(scope, sys.pool, i, sys.requests[i]);
        }
      case _ =>
        if a.r < |sys.requests| {
          RequestStepKeeps(scope, sys, a.r, a);
        }
    }
  }

  lemma {:induction false} RunKeeps(scope: Scope, sys: System, schedule: seq<Action>)
    requires Inv(scope, sys)
    ensures Inv(scope, Run(scope, sys, schedule))
    decreases |schedule|
  {
    if schedule == [] {
    } else {
      StepKeeps(scope, sys, schedule[0]);
      RunKeeps(scope, Step(scope, sys, schedule[0]), schedule[1..]);
    }
  }

  // ---------------------------------------------------------------------------
  // Isolation
  // ---------------------------------------------------------------------------

  /**
   In every run over every pool, each read of a request that passed a tenant returns exactly that tenant's
   rows, whatever its WHERE clause says about tenants, and a request that set no tenant sees no row.
   */
  lemma TenantIsolation(poolSize: nat, schedule: seq<Action>, r: nat, i: nat)
    requires var sys := Run(Transaction, NewSystem(poolSize), schedule);
      r < |sys.requests| && i < |sys.requests[r].answers|
    ensures var q := Run(Transaction, NewSystem(poolSize), schedule).requests[r];
      match q.tenant
      case Some(t) =>
        var read := q.answers[i];
        && read.result.Ok?
        && (forall k :: k in read.result.value <==> k in read.table && k.tenant == t && read.where(k, read.table[k]))
        && (forall k :: k in read.result.value ==> read.result.value[k] == read.table[k])
      case None => q.answers[i].result == Ok(map[]) || q.answers[i].result == Err(NotAUuid)
  {
    RunKeeps(Transaction, NewSystem(poolSize), schedule);
    var sys := Run(Transaction, NewSystem(poolSize), schedule);
    assert RequestOk(Transaction, sys.pool, r, sys.requests[r]);
    assert ReadScoped(Transaction, sys.requests[r].tenant, sys.requests[r].answers[i]);
  }

  /** With the setting left on the session, requests that pass a tenant would be as well served. */
  lemma SessionScopeServesTenants(poolSize: nat, schedule: seq<Action>, r: nat, i: nat)
    requires var sys := Run(Session, NewSystem(poolSize), schedule);
      r < |sys.requests| && i < |sys.requests[r].answers| && sys.requests[r].tenant.Some?
    ensures var q := Run(Session, NewSystem(poolSize), schedule).requests[r];
      q.answers[i].result == Ok(Own(q.answers[i].table, q.tenant.value, q.answers[i].where))
  {
    RunKeeps(Session, NewSystem(poolSize), schedule);
    var sys := Run(Session, NewSystem(poolSize), schedule);
    assert RequestOk(Session, sys.pool, r, sys.requests[r]);
    assert ReadScoped(Session, sys.requests[r].tenant, sys.requests[r].answers[i]);
  }

  function Everything(k: CellKey, v: CellRow): bool {
    true
  }

  /** What the only connection of the pool looks like after a request of this tenant. */
  function Used(tenant: TenantId): Connection {
    Connection(Of(tenant), None, None)
  }

  const VISIT := [Begin(0, 0), SetTenant(0), End(0)]
  const PEEK := [Begin(1, 0), SetTenant(1), Query(1, Everything)]

  lemma SessionVisit(table: CellMap, t: TenantId)
    ensures Run(Session, System(table, [FRESH], [Request(Some(t), Waiting, [])]), VISIT)
         == System(table, [Used(t)], [Request(Some(t), Closed, [])])
  {
    var s0 := System(table, [FRESH], [Request(Some(t), Waiting, [])]);
    var s1 := System(table, [FRESH.(holder := Some(0))], [Request(Some(t), Begun(0), [])]);
    var s2 := System(table, [Used(t).(holder := Some(0))], [Request(Some(t), Running(0), [])]);
    var s3 := System(table, [Used(t)], [Request(Some(t), Closed, [])]);
    assert Step(Session, s0, VISIT[0]) == s1;
    assert Step(Session, s1, VISIT[1]) == s2;
    assert Step(Session, s2, VISIT[2]) == s3;
    RunSteps(s0, VISIT, [s0, s1, s2, s3]);
  }

  lemma SessionPeek(table: CellMap, t: TenantId, first: Request)
    requires Own(table, t, Everything) == table
    ensures Run(Session, System(table, [Used(t)], [first, Request(None, Waiting, [])]), PEEK).requests
         == [first, Request(None, Running(0), [Read(table, Everything, Ok(table))])]
  {
    var c := Used(t).(holder := Some(1));
    var s0 := System(table, [Used(t)], [first, Request(None, Waiting, [])]);
    var s1 := System(table, [c], [first, Request(None, Begun(0), [])]);
    var s2 := System(table, [c], [first, Request(None, Running(0), [])]);
    var s3 := System(table, [c], [first, Request(None, Running(0), [Read(table, Everything, Ok(table))])]);
    assert Step(Session, s0, PEEK[0]) == s1;
    assert Step(Session, s1, PEEK[1]) == s2;
    assert Visible(c) == Of(t) && Select(table, Of(t), Everything) == Ok(table);
    assert PEEK[2] == Query(1, Everything);
    var q, read := s2.requests[1], Read(table, Everything, Ok(table));
    assert RequestStep(Session, s2, 1, PEEK[2]) == With(s2, 0, c, 1, q.(answers := q.answers + [read]));
    assert q.answers + [read] == [read];
    assert Step(Session, s2, PEEK[2]) == s3;
    RunSteps(s0, PEEK, [s0, s1, s2, s3]);
  }

  lemma {:induction false} RunAppend(scope: Scope, sys: System, a: seq<Action>, b: seq<Action>)
    ensures Run(scope, sys, a + b) == Run(scope, Run(scope, sys, a), b)
    decreases |a|
  {
    if a == [] {
      assert a + b == b;
    } else {
      assert (a + b)[1..] == a[1..] + b;
      RunAppend(scope, Step(scope, sys, a[0]), a[1..], b);
    }
  }

  /** But a request that passes none would see the rows of whoever held the connection before it. */
  lemma SessionScopeLeaks(k: CellKey, row: CellRow)
    ensures exists schedule: seq<Action> ::
      Run(Session, NewSystem(1), schedule).requests
      == [Request(Some(k.tenant), Closed, []),
          Request(None, Running(0), [Read(map[k := row], Everything, Ok(map[k := row]))])]
  {
    hide Own;
    var table, tenant := map[k := row], Some(k.tenant);
    var start := [Write(table), Arrive(tenant)];
    assert NewSystem(1).pool == [FRESH];
    var s1 := System(table, [FRESH], []);
    var s2 := System(table, [FRESH], [Request(tenant, Waiting, [])]);
    assert Step(Session, NewSystem(1), start[0]) == s1;
    assert Step(Session, s1, start[1]) == s2;
    RunSteps(NewSystem(1), start, [NewSystem(1), s1, s2]);
    RunAppend(Session, NewSystem(1), start, VISIT);
    SessionVisit(table, k.tenant);
    var first := Request(tenant, Closed, []);
    var s3 := System(table, [Used(k.tenant)], [first]);
    var s4 := System(table, [Used(k.tenant)], [first, Request(None, Waiting, [])]);
    assert Step(Session, s3, Arrive(None)) == s4;
    RunSteps(s3, [Arrive(None)], [s3, s4]);
    RunAppend(Session, NewSystem(1), start + VISIT, [Arrive(None)]);
    RunAppend(Session, NewSystem(1), start + VISIT + [Arrive(None)], PEEK);
    OwnsAll(k, row);
    SessionPeek(table, k.tenant, first);
  }

  lemma OwnsAll(k: CellKey, row: CellRow)
    ensures Own(map[k := row], k.tenant, Everything) == map[k := row]
  {
  }

  lemma {:induction false} RunSteps(sys: System, schedule: seq<Action>, states: seq<System>)
    requires |states| == |schedule| + 1 && states[0] == sys
    requires forall i :: 0 <= i < |schedule| ==> Step(Session, states[i], schedule[i]) == states[i + 1]
    ensures Run(Session, sys, schedule) == states[|schedule|]
    decreases |schedule|
  {
    if schedule == [] {
    } else {
      RunSteps(states[1], schedule[1..], states[1..]);
    }
  }
}
