/**
 crates/mobydb-client/src/postgres.rs: the cell queries. A table is read in some scan order the database
 picks; two queries over one table may see different orders.
 */
module Regions {
  import opened Bytes
  import opened Sorting
  import opened Provenance
  import opened EpochTables
  import opened Substations

  predicate ScanOf(scan: seq<Row>, table: CellMap) {
    && DistinctRowKeys(scan)
    && (forall r :: r in scan ==> r.0 in table && table[r.0] == r.1)
    && (forall k :: k in table ==> (k, table[k]) in scan)
  }

  function StoredCell(r: Row): int {
    r.0.h3
  }

  /** ORDER BY epoch_id DESC. */
  function LatestFirst(r: Row): int {
    -r.0.epoch
  }

  /** WHERE tenant_id = .. AND h3_cell = ANY(..), and the epoch when one is pinned. */
  predicate Selected(tenant: TenantId, ids: seq<int>, epoch: Option<int>, r: Row) {
    r.0.tenant == tenant && r.0.h3 in ids && (epoch.Some? ==> r.0.epoch == epoch.value)
  }

  function Where(scan: seq<Row>, tenant: TenantId, ids: seq<int>, epoch: Option<int>): seq<Row> {
    if scan == [] then []
    else (if Selected(tenant, ids, epoch, scan[0]) then [scan[0]] else []) + Where(scan[1..], tenant, ids, epoch)
  }

  function GetCellState(scan: seq<Row>, tenant: TenantId, cell: U64, epoch: Option<int>): Option<Row> {
    var rows := Where(scan, tenant, [AsI64(cell)], epoch);
    var ordered := if epoch.Some? then rows else SortBy(LatestFirst, rows);
    if ordered == [] then None else Some(ordered[0])
  }

  /** DISTINCT ON (h3_cell) .. ORDER BY h3_cell, epoch_id DESC: the first row of every cell. */
  function DistinctOnCell(rows: seq<Row>): seq<Row> {
    DedupBy(StoredCell, SortBy(StoredCell, SortBy(LatestFirst, rows)))
  }

  function StoredCells(cells: seq<U64>): (ids: seq<int>)
    ensures |ids| == |cells| && forall i :: 0 <= i < |cells| ==> ids[i] == AsI64(cells[i])
  {
    seq(|cells|, i requires 0 <= i < |cells| => AsI64(cells[i]))
  }

  datatype RegionError = BadViewport | ViewportTooLarge(requested: nat, max: nat)

  /** The viewport comes resolved to cells, or refused. */
  function QueryCellsInRegion(scan: seq<Row>, tenant: TenantId, viewport: Result<seq<U64>, RegionError>,
                              epoch: Option<int>, limit: nat): (r: Result<seq<Row>, RegionError>)
    ensures viewport.Err? ==> r == Err(viewport.error)
  {
    match viewport
    case Err(e) => Err(e)
    case Ok(cells) =>
      if |cells| > limit then Err(ViewportTooLarge(|cells|, limit))
      else if cells == [] then Ok([])
      else
        var rows := Where(scan, tenant, StoredCells(cells), epoch);
        Ok(if epoch.Some? then rows else DistinctOnCell(rows))
  }

  // ---------------------------------------------------------------------------
  // Sorting and picking one key commute
  // ---------------------------------------------------------------------------

  lemma {:induction false} PickedAfterInsert<T>(key: Key<T>, pick: Key<T>, k: int, x: T, s: seq<T>)
    requires SortedBy(key, s)
    ensures WithKey(pick, k, InsertBy(key, x, s))
         == if pick(x) == k then InsertBy(key, x, WithKey(pick, k, s)) else WithKey(pick, k, s)
  {
    if s == [] || key(x) <= key(s[0]) {
      assert ([x] + s)[1..] == s;
      FrontOfPicked(key, pick, k, x, s);
    } else {
      var rest := InsertBy(key, x, s[1..]);
      assert ([s[0]] + rest)[0] == s[0] && ([s[0]] + rest)[1..] == rest;
      PickedAfterInsert(key, pick, k, x, s[1..]);
      WithKeyStep(pick, k, s);
      WithKeyStep(pick, k, [s[0]] + rest);
      if pick(s[0]) == k && pick(x) == k {
        var kept := WithKey(pick, k, s);
        assert kept[0] == s[0] && kept[1..] == WithKey(pick, k, s[1..]);
      }
    }
  }

  lemma WithKeyStep<T>(pick: Key<T>, k: int, s: seq<T>)
    requires s != []
    ensures WithKey(pick, k, s)
         == if pick(s[0]) == k then [s[0]] + WithKey(pick, k, s[1..]) else WithKey(pick, k, s[1..])
  {
  }

  lemma {:induction false} FrontOfPicked<T>(key: Key<T>, pick: Key<T>, k: int, x: T, s: seq<T>)
    requires forall y :: y in s ==> key(x) <= key(y)
    ensures InsertBy(key, x, WithKey(pick, k, s)) == [x] + WithKey(pick, k, s)
  {
    if s == [] {
    } else {
      FrontOfPicked(key, pick, k, x, s[1..]);
      WithKeyStep(pick, k, s);
    }
  }

  lemma {:induction false} PickedAfterSort<T>(key: Key<T>, pick: Key<T>, k: int, s: seq<T>)
    ensures WithKey(pick, k, SortBy(key, s)) == SortBy(key, WithKey(pick, k, s))
  {
    if s == [] {
    } else {
      SortByIsStableSort(key, s[1..]);
      PickedAfterSort(key, pick, k, s[1..]);
      PickedAfterInsert(key, pick, k, s[0], SortBy(key, s[1..]));
      WithKeyStep(pick, k, s);
      if pick(s[0]) == k {
        var kept := WithKey(pick, k, s);
        assert kept[0] == s[0] && kept[1..] == WithKey(pick, k, s[1..]);
      }
    }
  }

  // ---------------------------------------------------------------------------
  // What the WHERE clause picks
  // ---------------------------------------------------------------------------

  lemma {:induction false} WhereHas(scan: seq<Row>, tenant: TenantId, ids: seq<int>, epoch: Option<int>, r: Row)
    ensures r in Where(scan, tenant, ids, epoch) <==> r in scan && Selected(tenant, ids, epoch, r)
  {
    if scan == [] {
    } else {
      WhereHas(scan[1..], tenant, ids, epoch, r);
    }
  }

  /** The rows of one cell are those the query for that cell alone picks. */
  lemma {:induction false} WhereOneCell(scan: seq<Row>, tenant: TenantId, ids: seq<int>, epoch: Option<int>, id: int)
    ensures WithKey(StoredCell, id, Where(scan, tenant, ids, epoch))
         == if id in ids then Where(scan, tenant, [id], epoch) else []
  {
    if scan == [] {
    } else {
      WhereOneCell(scan[1..], tenant, ids, epoch, id);
      var rest, rows := Where(scan[1..], tenant, ids, epoch), Where(scan, tenant, ids, epoch);
      if Selected(tenant, ids, epoch, scan[0]) {
        assert rows[0] == scan[0] && rows[1..] == rest;
        WithKeyStep(StoredCell, id, rows);
      } else {
        assert rows == rest;
      }
    }
  }

  lemma {:induction false} WhereDistinct(scan: seq<Row>, tenant: TenantId, ids: seq<int>, epoch: Option<int>)
    requires DistinctRowKeys(scan)
    ensures DistinctRowKeys(Where(scan, tenant, ids, epoch))
  {
    if scan == [] {
    } else {
      WhereDistinct(scan[1..], tenant, ids, epoch);
      var rest := Where(scan[1..], tenant, ids, epoch);
      forall i | 0 <= i < |rest| ensures rest[i].0 != scan[0].0 {
        WhereHas(scan[1..], tenant, ids, epoch, rest[i]);
      }
    }
  }

  /** Rows of one cell differ in their epoch. */
  lemma OneCellDistinctEpochs(scan: seq<Row>, tenant: TenantId, id: int, epoch: Option<int>)
    requires DistinctRowKeys(scan)
    ensures DistinctKeys(LatestFirst, Where(scan, tenant, [id], epoch))
  {
    var rows := Where(scan, tenant, [id], epoch);
    WhereDistinct(scan, tenant, [id], epoch);
    forall i, j | 0 <= i < j < |rows| ensures LatestFirst(rows[i]) != LatestFirst(rows[j]) {
      WhereHas(scan, tenant, [id], epoch, rows[i]);
      WhereHas(scan, tenant, [id], epoch, rows[j]);
    }
  }

  lemma SameRowsSelected(a: seq<Row>, b: seq<Row>, table: CellMap, tenant: TenantId, ids: seq<int>,
                         epoch: Option<int>, r: Row)
    requires ScanOf(a, table) && ScanOf(b, table)
    ensures r in Where(a, tenant, ids, epoch) <==> r in Where(b, tenant, ids, epoch)
  {
    WhereHas(a, tenant, ids, epoch, r);
    WhereHas(b, tenant, ids, epoch, r);
  }

  /** The rows of one cell, latest first, do not depend on the scan. */
  lemma HistoryOfCell(a: seq<Row>, b: seq<Row>, table: CellMap, tenant: TenantId, id: int, epoch: Option<int>)
    requires ScanOf(a, table) && ScanOf(b, table)
    ensures SortBy(LatestFirst, Where(a, tenant, [id], epoch)) == SortBy(LatestFirst, Where(b, tenant, [id], epoch))
  {
    var x, y := Where(a, tenant, [id], epoch), Where(b, tenant, [id], epoch);
    OneCellDistinctEpochs(a, tenant, id, epoch);
    OneCellDistinctEpochs(b, tenant, id, epoch);
    SortByIsStrict(LatestFirst, x);
    SortByIsStrict(LatestFirst, y);
    forall r ensures r in SortBy(LatestFirst, x) <==> r in SortBy(LatestFirst, y) {
      SortByHas(LatestFirst, x, r);
      SortByHas(LatestFirst, y, r);
      SameRowsSelected(a, b, table, tenant, [id], epoch, r);
    }
    StrictlySortedIsUnique(LatestFirst, SortBy(LatestFirst, x), SortBy(LatestFirst, y));
  }

  // ---------------------------------------------------------------------------
  // One cell
  // ---------------------------------------------------------------------------

  /** get_cell_state finds the row of the pinned epoch, or of the latest one, exactly when there is one. */
  lemma CellStateIsLatest(scan: seq<Row>, table: CellMap, tenant: TenantId, cell: U64, epoch: Option<int>)
    requires ScanOf(scan, table)
    ensures match GetCellState(scan, tenant, cell, epoch)
      case None => forall k :: k in table && k.tenant == tenant && k.h3 == AsI64(cell) ==>
        epoch.Some? && k.epoch != epoch.value
      case Some(r) =>
        && r.0 in table && table[r.0] == r.1 && r.0.tenant == tenant && r.0.h3 == AsI64(cell)
        && (epoch.Some? ==> r.0.epoch == epoch.value)
        && (epoch.None? ==>
              forall k :: k in table && k.tenant == tenant && k.h3 == AsI64(cell) ==> k.epoch <= r.0.epoch)
  {
    var rows := Where(scan, tenant, [AsI64(cell)], epoch);
    var sorted := SortBy(LatestFirst, rows);
    forall k | k in table && k.tenant == tenant && k.h3 == AsI64(cell)
      ensures epoch.None? || epoch.value == k.epoch ==> (k, table[k]) in rows && (k, table[k]) in sorted
    {
      WhereHas(scan, tenant, [AsI64(cell)], epoch, (k, table[k]));
      SortByHas(LatestFirst, rows, (k, table[k]));
    }
    SortByIsStableSort(LatestFirst, rows);
    var found := GetCellState(scan, tenant, cell, epoch);
    if found.Some? {
      SortByHas(LatestFirst, rows, found.value);
      WhereHas(scan, tenant, [AsI64(cell)], epoch, found.value);
    }
  }

  // ---------------------------------------------------------------------------
  // Regions
  // ---------------------------------------------------------------------------

  lemma {:induction false} DistinctFit<T>(key: Key<T>, s: seq<T>, room: set<int>)
    requires DistinctKeys(key, s) && forall x :: x in s ==> key(x) in room
    ensures |s| <= |room|
  {
    if s == [] {
    } else {
      forall x | x in s[1..] ensures key(x) in room - {key(s[0])} {
        var j :| 0 <= j < |s[1..]| && s[1..][j] == x;
        assert s[j + 1] == x;
      }
      DistinctFit(key, s[1..], room - {key(s[0])});
    }
  }

  function Members(ids: seq<int>): (m: set<int>)
    ensures |m| <= |ids| && forall id :: id in m <==> id in ids
  {
    if ids == [] then {} else {ids[0]} + Members(ids[1..])
  }

  lemma SignedIsInjective(a: U64, b: U64)
    requires AsI64(a) == AsI64(b)
    ensures a == b
  {
    StoredKeyRoundTrip(a);
    StoredKeyRoundTrip(b);
  }

  lemma LatestPerCell(rows: seq<Row>, id: int)
    ensures WithKey(StoredCell, id, DistinctOnCell(rows))
         == FirstOf(SortBy(LatestFirst, WithKey(StoredCell, id, rows)))
  {
    var byEpoch := SortBy(LatestFirst, rows);
    SortByIsStableSort(StoredCell, byEpoch);
    DedupKeepsFirst(StoredCell, SortBy(StoredCell, byEpoch), id);
    PickedAfterSort(LatestFirst, StoredCell, id, rows);
  }

  function AsSeq(r: Option<Row>): seq<Row> {
    match r case None => [] case Some(row) => [row]
  }

  lemma PinnedCellAlone(a: seq<Row>, b: seq<Row>, table: CellMap, tenant: TenantId, cell: U64, epoch: int)
    requires ScanOf(a, table) && ScanOf(b, table)
    ensures Where(a, tenant, [AsI64(cell)], Some(epoch)) == AsSeq(GetCellState(b, tenant, cell, Some(epoch)))
  {
    hide Where, SortBy, Selected, DistinctRowKeys;
    var x, y := Where(a, tenant, [AsI64(cell)], Some(epoch)), Where(b, tenant, [AsI64(cell)], Some(epoch));
    AtMostOne(a, tenant, AsI64(cell), epoch);
    AtMostOne(b, tenant, AsI64(cell), epoch);
    if x != [] {
      SameRowsSelected(a, b, table, tenant, [AsI64(cell)], Some(epoch), x[0]);
    }
    if y != [] {
      SameRowsSelected(a, b, table, tenant, [AsI64(cell)], Some(epoch), y[0]);
    }
  }

  lemma AtMostOne(scan: seq<Row>, tenant: TenantId, id: int, epoch: int)
    requires DistinctRowKeys(scan)
    ensures |Where(scan, tenant, [id], Some(epoch))| <= 1
  {
    var rows := Where(scan, tenant, [id], Some(epoch));
    if |rows| > 1 {
      WhereHas(scan, tenant, [id], Some(epoch), rows[0]);
      WhereHas(scan, tenant, [id], Some(epoch), rows[1]);
      OneCellDistinctEpochs(scan, tenant, id, Some(epoch));
      assert false;
    }
  }

  /**
   The region query is refused exactly when more cells are asked for than the limit. Otherwise it gives, for
   every cell asked for, what the query for that cell gives, whatever order either scan takes, and nothing
   for any other cell.
   */
  lemma RegionAgreesWithCells(a: seq<Row>, b: seq<Row>, table: CellMap, tenant: TenantId, cells: seq<U64>,
                              epoch: Option<int>, limit: nat, cell: U64)
    requires ScanOf(a, table) && ScanOf(b, table)
    ensures match QueryCellsInRegion(a, tenant, Ok(cells), epoch, limit)
      case Err(e) => |cells| > limit && e == ViewportTooLarge(|cells|, limit)
      case Ok(rows) =>
        && |cells| <= limit
        && WithKey(StoredCell, AsI64(cell), rows)
           == if cell in cells then AsSeq(GetCellState(b, tenant, cell, epoch)) else []
  {
    if |cells| <= limit {
      PickedRowsAgree(a, b, table, tenant, cells, epoch, cell);
    }
  }

  lemma PickedRowsAgree(a: seq<Row>, b: seq<Row>, table: CellMap, tenant: TenantId, cells: seq<U64>,
                        epoch: Option<int>, cell: U64)
    requires ScanOf(a, table) && ScanOf(b, table)
    ensures var rows := Where(a, tenant, StoredCells(cells), epoch);
      WithKey(StoredCell, AsI64(cell), if epoch.Some? then rows else DistinctOnCell(rows))
      == if cell in cells then AsSeq(GetCellState(b, tenant, cell, epoch)) else []
  {
    var ids, id := StoredCells(cells), AsI64(cell);
    var rows := Where(a, tenant, ids, epoch);
    WhereOneCell(a, tenant, ids, epoch, id);
    IdOfCell(cells, cell);
    match epoch {
      case Some(e) => PinnedCellAlone(a, b, table, tenant, cell, e);
      case None =>
        LatestPerCell(rows, id);
        HistoryOfCell(a, b, table, tenant, id, None);
    }
  }

  lemma IdOfCell(cells: seq<U64>, cell: U64)
    ensures AsI64(cell) in StoredCells(cells) <==> cell in cells
  {
    var ids := StoredCells(cells);
    if AsI64(cell) in ids {
      var i :| 0 <= i < |ids| && ids[i] == AsI64(cell);
      SignedIsInjective(cells[i], cell);
    }
    if cell in cells {
      var i :| 0 <= i < |cells| && cells[i] == cell;
      assert ids[i] == AsI64(cell);
    }
  }

  /** Every row is one of the tenant's for a cell asked for, no cell comes twice, there are never more rows
      than the limit, and without an epoch they come in stored-key order. */
  lemma RegionIsWithinLimit(scan: seq<Row>, table: CellMap, tenant: TenantId, cells: seq<U64>,
                            epoch: Option<int>, limit: nat)
    requires ScanOf(scan, table) && |cells| <= limit
    ensures var q := QueryCellsInRegion(scan, tenant, Ok(cells), epoch, limit);
      && q.Ok? && |q.value| <= |cells|
      && DistinctKeys(StoredCell, q.value)
      && (epoch.None? ==> StrictlySortedBy(StoredCell, q.value))
      && forall r :: r in q.value ==>
           r.0 in table && table[r.0] == r.1 && Selected(tenant, StoredCells(cells), epoch, r)
  {
    var ids := StoredCells(cells);
    var rows := Where(scan, tenant, ids, epoch);
    var result := QueryCellsInRegion(scan, tenant, Ok(cells), epoch, limit).value;
    if cells != [] {
      forall r | r in result ensures r in scan && Selected(tenant, ids, epoch, r) {
        DistinctOnCellHas(rows, r);
        WhereHas(scan, tenant, ids, epoch, r);
      }
      match epoch {
        case Some(e) =>
          WhereDistinct(scan, tenant, ids, epoch);
          PinnedCellsDiffer(scan, tenant, ids, e);
        case None =>
          SortByIsStableSort(StoredCell, SortBy(LatestFirst, rows));
          DedupIsStrict(StoredCell, SortBy(StoredCell, SortBy(LatestFirst, rows)));
      }
      DistinctFit(StoredCell, result, Members(ids));
    }
  }

  lemma DistinctOnCellHas(rows: seq<Row>, r: Row)
    ensures r in DistinctOnCell(rows) ==> r in rows
  {
    var byEpoch := SortBy(LatestFirst, rows);
    SortByIsStableSort(StoredCell, byEpoch);
    DedupIsStrict(StoredCell, SortBy(StoredCell, byEpoch));
    SortByHas(StoredCell, byEpoch, r);
    SortByHas(LatestFirst, rows, r);
  }

  lemma PinnedCellsDiffer(scan: seq<Row>, tenant: TenantId, ids: seq<int>, epoch: int)
    requires DistinctRowKeys(scan)
    ensures DistinctKeys(StoredCell, Where(scan, tenant, ids, Some(epoch)))
  {
    var rows := Where(scan, tenant, ids, Some(epoch));
    WhereDistinct(scan, tenant, ids, Some(epoch));
    forall i, j | 0 <= i < j < |rows| ensures StoredCell(rows[i]) != StoredCell(rows[j]) {
      WhereHas(scan, tenant, ids, Some(epoch), rows[i]);
      WhereHas(scan, tenant, ids, Some(epoch), rows[j]);
    }
  }
}
