/**
 The sealed-epoch store: what an epoch consists of, and inserting rows with ON CONFLICT DO NOTHING.
 */
module EpochTables {
  import opened Bytes
  import opened EpochTree
  import opened Provenance

  const EPOCH_COUNT: nat := 10
  const BATCH_SIZE := 100

  /** 2026-04-01T06:00:00Z in Unix seconds; epochs are twelve hours apart. */
  const FIRST_SEAL := 1775023200

  function SealedAt(epoch: int): int {
    FIRST_SEAL + 43200 * epoch
  }

  type Row = (CellKey, CellRow)

  /**
   What a seeder is bound to write: the rows of every epoch, in leaf order. Seeding is deterministic, so
   this is a function; how the seeder computes it is SeedPlan's subject.
   */
  datatype Plan = Plan(h: HashFn, rows: (TenantId, int) -> seq<Row>)

  /** Rows carry their tenant and epoch and come in strictly increasing order of the stored key. */
  predicate WellOrdered(rows: seq<Row>, tenant: TenantId, epoch: int) {
    && (forall i :: 0 <= i < |rows| ==> rows[i].0.tenant == tenant && rows[i].0.epoch == epoch)
    && (forall i, j :: 0 <= i < j < |rows| ==> rows[i].0.h3 < rows[j].0.h3)
  }

  ghost predicate ValidPlan(p: Plan) {
    forall tenant, epoch :: WellOrdered(p.rows(tenant, epoch), tenant, epoch)
  }

  function ContentHashes(rows: seq<Row>): (leaves: seq<Digest>)
    ensures |leaves| == |rows| && forall i :: 0 <= i < |rows| ==> leaves[i] == rows[i].1.contentHash
  {
    seq(|rows|, i requires 0 <= i < |rows| => rows[i].1.contentHash)
  }

  function RootOf(p: Plan, tenant: TenantId, epoch: int): Digest {
    EpochRoot(p.h, ContentHashes(p.rows(tenant, epoch)))
  }

  /** What the epoch loop holds in parent_root when it comes to an epoch. */
  function ParentOf(p: Plan, tenant: TenantId, epoch: int): Option<Digest> {
    if epoch == 0 then None else Some(RootOf(p, tenant, epoch - 1))
  }

  function SealedEpoch(p: Plan, tenant: TenantId, epoch: int): EpochRow {
    EpochRow(SealedAt(epoch), RootOf(p, tenant, epoch), ParentOf(p, tenant, epoch), |p.rows(tenant, epoch)|)
  }

  // ---------------------------------------------------------------------------
  // Inserting with ON CONFLICT DO NOTHING
  // ---------------------------------------------------------------------------

  type CellMap = map<CellKey, CellRow>

  /** Insert rows one by one into a transaction's own writes, skipping keys that exist. */
  function InsertRows(committed: CellMap, own: CellMap, rows: seq<Row>): CellMap
    decreases |rows|
  {
    if rows == [] then own
    else if rows[0].0 in committed || rows[0].0 in own then InsertRows(committed, own, rows[1..])
    else InsertRows(committed, own[rows[0].0 := rows[0].1], rows[1..])
  }

  /** How rows are cut into statements does not matter. */
  lemma {:induction false} InsertInBatches(committed: CellMap, own: CellMap,
                                           a: seq<Row>, b: seq<Row>)
    ensures InsertRows(committed, own, a + b) == InsertRows(committed, InsertRows(committed, own, a), b)
    decreases |a|
  {
    if a == [] {
      assert a + b == b;
    } else {
      assert (a + b)[1..] == a[1..] + b;
      var own' := if a[0].0 in committed || a[0].0 in own then own else own[a[0].0 := a[0].1];
      InsertInBatches(committed, own', a[1..], b);
    }
  }

  /** Rows that are all committed already leave the transaction empty-handed. */
  lemma {:induction false} InsertStale(committed: CellMap, own: CellMap, rows: seq<Row>)
    requires forall r :: r in rows ==> r.0 in committed
    ensures InsertRows(committed, own, rows) == own
    decreases |rows|
  {
    if rows == [] {
    } else {
      InsertStale(committed, own, rows[1..]);
    }
  }

  /** Whether earlier rows are someone's or one's own makes no difference to what is skipped. */
  lemma {:induction false} InsertBeside(committed: CellMap, own: CellMap, rows: seq<Row>)
    ensures InsertRows(map[], committed + own, rows) == committed + InsertRows(committed, own, rows)
    decreases |rows|
  {
    if rows == [] {
    } else {
      var (k, v) := rows[0];
      if k in committed || k in own {
        InsertBeside(committed, own, rows[1..]);
      } else {
        assert (committed + own)[k := v] == committed + own[k := v];
        InsertBeside(committed, own[k := v], rows[1..]);
      }
    }
  }

  /** Rows none of which is committed go in as into an empty table. */
  lemma {:induction false} InsertFresh(committed: CellMap, own: CellMap, rows: seq<Row>)
    requires forall r :: r in rows ==> r.0 !in committed
    ensures InsertRows(committed, own, rows) == InsertRows(map[], own, rows)
    decreases |rows|
  {
    if rows == [] {
    } else {
      InsertFresh(committed, if rows[0].0 in own then own else own[rows[0].0 := rows[0].1], rows[1..]);
    }
  }

  predicate DistinctRowKeys(rows: seq<Row>) {
    forall i, j :: 0 <= i < j < |rows| ==> rows[i].0 != rows[j].0
  }

  /** The table holding these rows and nothing else. */
  function TableOf(rows: seq<Row>): CellMap {
    InsertRows(map[], map[], rows)
  }

  lemma {:induction false} TableHoldsRows(rows: seq<Row>, n: nat)
    requires DistinctRowKeys(rows) && n <= |rows|
    ensures forall i :: 0 <= i < n ==> rows[i].0 in TableOf(rows[..n]) && TableOf(rows[..n])[rows[i].0] == rows[i].1
    ensures forall k :: k in TableOf(rows[..n]) ==> exists i :: 0 <= i < n && rows[i].0 == k
    ensures |TableOf(rows[..n])| == n
  {
    if n == 0 {
    } else {
      var last := rows[n - 1];
      TableHoldsRows(rows, n - 1);
      assert rows[..n] == rows[..n - 1] + [last];
      InsertInBatches(map[], map[], rows[..n - 1], [last]);
      assert last.0 !in TableOf(rows[..n - 1]);
      assert TableOf(rows[..n]) == TableOf(rows[..n - 1])[last.0 := last.1];
      hide TableOf, InsertRows;
    }
  }
}
