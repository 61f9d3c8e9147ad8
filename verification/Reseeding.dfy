/** Writing an epoch over tables of any origin, with rows that need not be those it was sealed with. */
module Reseeding {
  import opened Bytes
  import opened EpochTree
  import opened Sorting
  import opened Provenance
  import opened EpochTables
  import opened EpochMachine
  import opened EpochProofs
  import opened SeedRun

  /** The stored root is the root over the cells stored now: what a read at rest needs to be accepted. */
  ghost predicate RootIsCurrent(h: HashFn, db: Tables, k: EpochKey) {
    && k in db.epochs
    && var leaves := EpochLeaves(db, k.tenant, k.epoch);
    && AllDigests(leaves)
    && db.epochs[k].merkleRoot == EpochRoot(h, Hashes(leaves))
  }

  /** And the stored count is their number. */
  ghost predicate Complete(h: HashFn, db: Tables, k: EpochKey) {
    RootIsCurrent(h, db, k) && db.epochs[k].cellCount == |EpochLeaves(db, k.tenant, k.epoch)|
  }

  // ---------------------------------------------------------------------------
  // What inserting adds
  // ---------------------------------------------------------------------------

  predicate Extends(small: CellMap, large: CellMap) {
    forall c :: c in small ==> c in large && large[c] == small[c]
  }

  lemma {:induction false} InsertExtends(own: CellMap, rows: seq<Row>)
    ensures Extends(own, InsertRows(map[], own, rows))
    ensures forall c :: c in InsertRows(map[], own, rows) ==> c in own || exists i :: 0 <= i < |rows| && rows[i].0 == c
    ensures forall i :: 0 <= i < |rows| ==> rows[i].0 in InsertRows(map[], own, rows)
    decreases |rows|
  {
    if rows == [] {
    } else {
      var own' := if rows[0].0 in own then own else own[rows[0].0 := rows[0].1];
      InsertExtends(own', rows[1..]);
      forall c | c in InsertRows(map[], own, rows)
        ensures c in own || exists i :: 0 <= i < |rows| && rows[i].0 == c
      {
        if c !in own && c != rows[0].0 {
          var i :| 0 <= i < |rows[1..]| && rows[1..][i].0 == c;
          assert rows[i + 1].0 == c;
        }
      }
      forall i | 0 <= i < |rows| ensures rows[i].0 in InsertRows(map[], own, rows) {
        assert i > 0 ==> rows[1..][i - 1] == rows[i];
      }
    }
  }

  lemma SubsetSizes<T>(a: set<T>, b: set<T>)
    requires a <= b
    ensures |a| <= |b|
    ensures |a| == |b| ==> a == b
  {
    assert b == a + (b - a);
    if |a| == |b| {
      assert |b - a| == 0;
    }
  }

  lemma {:induction false} InOrderLength(s: set<int>)
    ensures |InOrder(s)| == |s|
  {
    if s == {} {
    } else {
      InOrderLength(s - {Least(s)});
    }
  }

  lemma MapSizes(small: CellMap, large: CellMap)
    requires Extends(small, large)
    ensures |small| <= |large|
    ensures |small| == |large| ==> small == large
  {
    SubsetSizes(small.Keys, large.Keys);
    assert |small.Keys| == |small| && |large.Keys| == |large|;
  }

  /** A key of the epoch that is new to the table is new to the epoch's leaves. */
  lemma LeavesGrow(db: Tables, db': Tables, k: EpochKey, c: CellKey)
    requires Extends(db.cells, db'.cells)
    requires c in db'.cells && c !in db.cells && c.tenant == k.tenant && c.epoch == k.epoch
    ensures |EpochLeaves(db', k.tenant, k.epoch)| > |EpochLeaves(db, k.tenant, k.epoch)|
  {
    var keys, keys' := EpochKeys(db, k.tenant, k.epoch), EpochKeys(db', k.tenant, k.epoch);
    assert c == CellKey(k.tenant, c.h3, k.epoch);
    assert c.h3 in keys' && c.h3 !in keys;
    SubsetSizes(keys, keys');
    InOrderLength(keys);
    InOrderLength(keys');
  }

  lemma SomeNewKey(small: CellMap, large: CellMap) returns (c: CellKey)
    requires Extends(small, large) && small != large
    ensures c in large && c !in small
  {
    var added := large.Keys - small.Keys;
    MapSizes(small, large);
    assert large.Keys == small.Keys + added;
    assert |large.Keys| == |small.Keys| + |added|;
    c := SomeMember(added);
  }

  lemma SameCellsSameLeaves(db: Tables, db': Tables, tenant: TenantId, epoch: int)
    requires db.cells == db'.cells
    ensures EpochLeaves(db', tenant, epoch) == EpochLeaves(db, tenant, epoch)
  {
    assert EpochKeys(db, tenant, epoch) == EpochKeys(db', tenant, epoch);
  }

  // ---------------------------------------------------------------------------
  // Writing an epoch that exists
  // ---------------------------------------------------------------------------

  /**
   Seeding again after the rows have changed. An epoch that was complete stays so exactly when no row was
   inserted; its stored root stays current exactly when the old leaves and the new ones share a root.
   */
  lemma RerunKeepsEpoch(h: HashFn, rows: seq<Row>, k: EpochKey, sealedAt: int, parent: Option<Digest>,
                        db: Tables, db': Tables, root: Digest)
    requires Written(h, rows, k, sealedAt, parent, db, db', root) && WellOrdered(rows, k.tenant, k.epoch)
    requires RootIsCurrent(h, db, k)
    ensures Complete(h, db, k) ==> (Complete(h, db', k) <==> |db'.cells| == |db.cells|)
    ensures var leaves, leaves' := EpochLeaves(db, k.tenant, k.epoch), EpochLeaves(db', k.tenant, k.epoch);
      && AllDigests(leaves')
      && (RootIsCurrent(h, db', k) <==> EpochRoot(h, Hashes(leaves')) == EpochRoot(h, Hashes(leaves)))
    ensures |db'.cells| == |db.cells| ==> db' == db
  {
    hide InsertRows, EpochRoot, Hashes, WellOrdered;
    InsertExtends(db.cells, rows);
    MapSizes(db.cells, db'.cells);
    if db'.cells == db.cells {
      SameCellsSameLeaves(db, db', k.tenant, k.epoch);
    } else {
      var c := SomeNewKey(db.cells, db'.cells);
      InsertedInEpoch(rows, k, c);
      LeavesGrow(db, db', k, c);
    }
  }

  lemma InsertedInEpoch(rows: seq<Row>, k: EpochKey, c: CellKey)
    requires WellOrdered(rows, k.tenant, k.epoch) && exists i :: 0 <= i < |rows| && rows[i].0 == c
    ensures c.tenant == k.tenant && c.epoch == k.epoch
  {
  }

  // ---------------------------------------------------------------------------
  // Writing a new epoch
  // ---------------------------------------------------------------------------

  ghost predicate HasStrayCells(db: Tables, k: EpochKey) {
    exists c :: c in db.cells && c.tenant == k.tenant && c.epoch == k.epoch
  }

  lemma DistinctWhenOrdered(rows: seq<Row>, tenant: TenantId, epoch: int)
    requires WellOrdered(rows, tenant, epoch)
    ensures DistinctRowKeys(rows)
  {
  }

  /** Into an epoch without cells exactly the rows go. */
  lemma FreshLeaves(rows: seq<Row>, k: EpochKey, db: Tables, db': Tables)
    requires WellOrdered(rows, k.tenant, k.epoch) && !HasStrayCells(db, k)
    requires db'.cells == InsertRows(map[], db.cells, rows)
    ensures EpochLeaves(db', k.tenant, k.epoch) == LeavesOf(rows)
  {
    var keys, stored := KeysOf(rows), EpochKeys(db', k.tenant, k.epoch);
    DistinctWhenOrdered(rows, k.tenant, k.epoch);
    forall i | 0 <= i < |rows|
      ensures rows[i].0 in db'.cells && db'.cells[rows[i].0] == rows[i].1
    {
      RowGoesIn(rows, k, db, i);
    }
    InsertExtends(db.cells, rows);
    forall x ensures x in keys <==> x in stored {
      if x in keys {
        var i: nat :| i < |keys| && keys[i] == x;
        assert rows[i].0 == CellKey(k.tenant, x, k.epoch);
      }
      if x in stored {
        var c := CellKey(k.tenant, x, k.epoch);
        assert c !in db.cells;
        var i: nat :| i < |rows| && rows[i].0 == c;
        assert keys[i] == x;
      }
    }
    InOrderIsUnique(keys, stored);
    forall i | 0 <= i < |rows| ensures EpochLeaves(db', k.tenant, k.epoch)[i] == LeavesOf(rows)[i] {
      assert rows[i].0 == CellKey(k.tenant, rows[i].0.h3, k.epoch);
    }
  }

  lemma RowGoesIn(rows: seq<Row>, k: EpochKey, db: Tables, i: nat)
    requires WellOrdered(rows, k.tenant, k.epoch) && !HasStrayCells(db, k) && i < |rows|
    ensures var cells := InsertRows(map[], db.cells, rows); rows[i].0 in cells && cells[rows[i].0] == rows[i].1
  {
    DistinctWhenOrdered(rows, k.tenant, k.epoch);
    forall r | r in rows ensures r.0 !in db.cells {
    }
    AddNone(db.cells);
    InsertBeside(db.cells, map[], rows);
    InsertFresh(db.cells, map[], rows);
    TableHoldsRows(rows, |rows|);
    assert rows[..|rows|] == rows;
  }

  /** An epoch that is new and finds no stray cells is complete once written, whatever else the tables hold. */
  lemma NewEpochIsComplete(h: HashFn, rows: seq<Row>, k: EpochKey, sealedAt: int, parent: Option<Digest>,
                           db: Tables, db': Tables, root: Digest)
    requires Written(h, rows, k, sealedAt, parent, db, db', root) && WellOrdered(rows, k.tenant, k.epoch)
    requires k !in db.epochs && !HasStrayCells(db, k)
    ensures Complete(h, db', k)
  {
    FreshLeaves(rows, k, db, db');
    assert Hashes(LeavesOf(rows)) == ContentHashes(rows);
  }

  /** No write touches another epoch. */
  lemma OtherEpochsStay(h: HashFn, rows: seq<Row>, k: EpochKey, sealedAt: int, parent: Option<Digest>,
                        db: Tables, db': Tables, root: Digest, other: EpochKey)
    requires Written(h, rows, k, sealedAt, parent, db, db', root) && WellOrdered(rows, k.tenant, k.epoch)
    requires other != k
    ensures Complete(h, db', other) <==> Complete(h, db, other)
  {
    var t, e := other.tenant, other.epoch;
    InsertExtends(db.cells, rows);
    hide InsertRows, EpochRoot, Hashes;
    var keys, keys' := EpochKeys(db, t, e), EpochKeys(db', t, e);
    forall x ensures x in keys <==> x in keys' {
      var c := CellKey(t, x, e);
      if c in db'.cells && c !in db.cells {
        InsertedInEpoch(rows, k, c);
        assert false;
      }
    }
    assert keys == keys';
    assert EpochLeaves(db, t, e) == EpochLeaves(db', t, e);
  }
}
