/** From features to stored rows: what is found in the store under a cell and an epoch. */
module SeededContent {
  import opened Bytes
  import opened Text
  import opened CanonicalJson
  import opened Sorting
  import opened Substations
  import opened Provenance
  import opened EpochMachine
  import opened EpochProofs
  import opened SeedPlan

  /** The first feature, in input order, that lies in the cell. */
  predicate IsFirstIn(features: seq<Feature>, cell: U64, i: nat) {
    i < |features| && features[i].cell == Some(cell) && forall j :: 0 <= j < i ==> features[j].cell != Some(cell)
  }

  lemma {:induction false} UsableFirst(features: seq<Feature>, cell: U64, i: nat)
    requires IsFirstIn(features, cell, i)
    ensures FirstOf(WithKey(Unsigned, cell, Usable(features)))
         == [Substation(features[i].osmId, features[i].tags, cell)]
  {
    var rest := Usable(features[1..]);
    if i == 0 {
      assert Converted(features[0]) == [Substation(features[0].osmId, features[0].tags, cell)];
      assert Usable(features)[0] == Substation(features[0].osmId, features[0].tags, cell);
    } else {
      UsableFirst(features[1..], cell, i - 1);
      if features[0].cell.None? {
        assert Usable(features) == rest;
      } else {
        assert Usable(features)[1..] == rest;
        assert Unsigned(Usable(features)[0]) != cell;
        assert WithKey(Unsigned, cell, Usable(features)) == WithKey(Unsigned, cell, rest);
      }
    }
  }

  lemma {:induction false} UsableFrom(features: seq<Feature>, s: Substation)
    requires s in Usable(features)
    ensures exists i :: 0 <= i < |features| && features[i].cell == Some(s.h3)
  {
    if s in Converted(features[0]) {
    } else {
      UsableFrom(features[1..], s);
      var i :| 0 <= i < |features[1..]| && features[1..][i].cell == Some(s.h3);
      assert features[i + 1].cell == Some(s.h3);
    }
  }

  lemma {:induction false} FirstExists(features: seq<Feature>, cell: U64, n: nat) returns (i: nat)
    requires n < |features| && features[n].cell == Some(cell)
    ensures i <= n && IsFirstIn(features, cell, i)
  {
    if forall j :: 0 <= j < n ==> features[j].cell != Some(cell) {
      i := n;
    } else {
      var m :| 0 <= m < n && features[m].cell == Some(cell);
      i := FirstExists(features, cell, m);
    }
  }

  /** The one substation seeded for a cell. */
  lemma BuiltFor(features: seq<Feature>, cell: U64, i: nat)
    requires IsFirstIn(features, cell, i)
    ensures Substation(features[i].osmId, features[i].tags, cell) in LeafOrder(Build(features))
  {
    var s := Substation(features[i].osmId, features[i].tags, cell);
    BuildKeepsFirstPerCell(features, cell);
    UsableFirst(features, cell, i);
    assert WithKey(Unsigned, cell, Build(features)) == [s];
    InPicked(Unsigned, Build(features), cell, s);
    LeafOrderOfBuild(features);
  }

  lemma {:induction false} InPicked<T>(key: Key<T>, s: seq<T>, k: int, x: T)
    requires x in WithKey(key, k, s)
    ensures x in s && key(x) == k
  {
    if x == s[0] && key(s[0]) == k {
    } else {
      InPicked(key, s[1..], k, x);
    }
  }

  lemma {:induction false} PickedHas<T>(key: Key<T>, s: seq<T>, x: T)
    requires x in s
    ensures x in WithKey(key, key(x), s)
  {
    if x == s[0] {
    } else {
      PickedHas(key, s[1..], x);
    }
  }

  /** A substation that is seeded is the first of its cell. */
  lemma SeededIsFirst(features: seq<Feature>, s: Substation) returns (i: nat)
    requires s in LeafOrder(Build(features))
    ensures IsFirstIn(features, s.h3, i) && s == Substation(features[i].osmId, features[i].tags, s.h3)
  {
    LeafOrderOfBuild(features);
    BuildKeepsFirstPerCell(features, s.h3);
    PickedHas(Unsigned, Build(features), s);
    var kept := WithKey(Unsigned, s.h3, Usable(features));
    assert kept != [] && s == kept[0];
    InPicked(Unsigned, Usable(features), s.h3, s);
    UsableFrom(features, s);
    var n :| 0 <= n < |features| && features[n].cell == Some(s.h3);
    i := FirstExists(features, s.h3, n);
    UsableFirst(features, s.h3, i);
  }

  /**
   Under every schedule: the row stored for a cell and an epoch carries the payload of the cell's first feature
   at that epoch, the hash of that payload's canonical text, and the key and signature of the feature's OSM id.
   */
  lemma StoredRowIsFirstFeatures(w: World, schedule: seq<Action>, tenant: TenantId, cell: U64, epoch: int, i: nat)
    requires ValidWorld(w) && IsFirstIn(w.features(tenant), cell, i)
    requires CellKey(tenant, AsI64(cell), epoch) in Run(PlanOf(w), EMPTY, schedule).db.cells
    ensures var row := Run(PlanOf(w), EMPTY, schedule).db.cells[CellKey(tenant, AsI64(cell), epoch)];
      var f := w.features(tenant)[i];
      && row.payload == w.payload(Substation(f.osmId, f.tags, cell), epoch)
      && row.contentHash == w.h(Utf8(Canonical(Gns, row.payload)))
      && row.identityPk == w.publicKey(w.h(Utf8(f.osmId)))
      && row.signature == w.sign(w.h(Utf8(f.osmId)), row.contentHash)
  {
    PlanIsValid(w);
    ReachableIsSound(PlanOf(w), schedule);
    var db, key := Run(PlanOf(w), EMPTY, schedule).db, CellKey(tenant, AsI64(cell), epoch);
    var n := StoredCellIsRow(PlanOf(w), db, key);
    var s := LeafOrder(Build(w.features(tenant)))[n];
    assert PlanOf(w).rows(tenant, epoch)[n] == RowOf(w, tenant, s, epoch);
    StoredKeyRoundTrip(s.h3);
    StoredKeyRoundTrip(cell);
    assert s.h3 == cell;
    var j := SeededIsFirst(w.features(tenant), s);
    assert j == i;
  }

  /** A stored key is that of a feature's cell, in one of the ten epochs. */
  lemma StoredCellHasFeature(w: World, schedule: seq<Action>, key: CellKey) returns (i: nat, cell: U64)
    requires ValidWorld(w) && key in Run(PlanOf(w), EMPTY, schedule).db.cells
    ensures IsFirstIn(w.features(key.tenant), cell, i) && key.h3 == AsI64(cell)
    ensures 0 <= key.epoch < 10
  {
    PlanIsValid(w);
    ReachableIsSound(PlanOf(w), schedule);
    var n := StoredCellIsRow(PlanOf(w), Run(PlanOf(w), EMPTY, schedule).db, key);
    var s := LeafOrder(Build(w.features(key.tenant)))[n];
    assert PlanOf(w).rows(key.tenant, key.epoch)[n] == RowOf(w, key.tenant, s, key.epoch);
    cell := s.h3;
    i := SeededIsFirst(w.features(key.tenant), s);
  }

  /** And once an epoch is stored, no feature's cell is missing. */
  lemma EveryFeatureIsStored(w: World, schedule: seq<Action>, tenant: TenantId, cell: U64, epoch: int, n: nat)
    requires ValidWorld(w) && n < |w.features(tenant)| && w.features(tenant)[n].cell == Some(cell)
    requires EpochKey(tenant, epoch) in Run(PlanOf(w), EMPTY, schedule).db.epochs
    ensures CellKey(tenant, AsI64(cell), epoch) in Run(PlanOf(w), EMPTY, schedule).db.cells
  {
    PlanIsValid(w);
    ReachableIsSound(PlanOf(w), schedule);
    var features := w.features(tenant);
    var i := FirstExists(features, cell, n);
    BuiltFor(features, cell, i);
    var order := LeafOrder(Build(features));
    var m :| 0 <= m < |order| && order[m] == Substation(features[i].osmId, features[i].tags, cell);
    assert PlanOf(w).rows(tenant, epoch)[m] == RowOf(w, tenant, order[m], epoch);
    RowIsStored(PlanOf(w), Run(PlanOf(w), EMPTY, schedule).db, tenant, epoch, m);
  }
}
