/** The seeder's input: one substation per H3 cell, in key order. */
module Substations {
  import opened Bytes
  import opened Sorting

  type U64 = n: int | 0 <= n < 0x1_0000_0000_0000_0000

  /** A GeoJSON feature. The cell is None when the coordinates are refused; tags stand for all properties. */
  datatype Feature = Feature(osmId: string, tags: string, cell: Option<U64>)

  datatype Substation = Substation(osmId: string, tags: string, h3: U64)

  function Unsigned(s: Substation): int {
    s.h3
  }

  /** The BIGINT a cell index is stored as: the same 64 bits, read as a signed number. */
  function Signed(s: Substation): int {
    AsI64(s.h3)
  }

  function AsI64(n: U64): int {
    if n < 0x8000_0000_0000_0000 then n else n - 0x1_0000_0000_0000_0000
  }

  function FromI64(i: int): U64
    requires -0x8000_0000_0000_0000 <= i < 0x8000_0000_0000_0000
  {
    if i >= 0 then i else i + 0x1_0000_0000_0000_0000
  }

  lemma StoredKeyRoundTrip(n: U64)
    ensures -0x8000_0000_0000_0000 <= AsI64(n) < 0x8000_0000_0000_0000 && FromI64(AsI64(n)) == n
    ensures (AsI64(n) - n) % 0x1_0000_0000_0000_0000 == 0
  {
  }

  function Usable(features: seq<Feature>): seq<Substation> {
    if features == [] then [] else Converted(features[0]) + Usable(features[1..])
  }

  function Converted(f: Feature): seq<Substation> {
    if f.cell.None? then [] else [Substation(f.osmId, f.tags, f.cell.value)]
  }

  function Build(features: seq<Feature>): seq<Substation> {
    DedupBy(Unsigned, SortBy(Unsigned, Usable(features)))
  }

  lemma {:induction false} UsableGrows(features: seq<Feature>, f: Feature)
    ensures Usable(features + [f]) == Usable(features) + Converted(f)
  {
    hide Converted;
    if features == [] {
      assert features + [f] == [f];
    } else {
      assert (features + [f])[1..] == features[1..] + [f];
      UsableGrows(features[1..], f);
    }
  }

  method BuildSubstations(features: seq<Feature>) returns (out: seq<Substation>)
    ensures out == Build(features)
  {
    out := [];
    for i := 0 to |features|
      invariant out == Usable(features[..i])
    {
      UsableGrows(features[..i], features[i]);
      assert features[..i + 1] == features[..i] + [features[i]];
      match features[i].cell
      case None => continue;
      case Some(cell) => out := out + [Substation(features[i].osmId, features[i].tags, cell)];
    }
    assert features[..|features|] == features;
    out := SortBy(Unsigned, out);
    out := DedupBy(Unsigned, out);
  }

  /** Keys strictly increase, and every cell is represented by its first valid feature in input order. */
  lemma BuildKeepsFirstPerCell(features: seq<Feature>, cell: U64)
    ensures StrictlySortedBy(Unsigned, Build(features))
    ensures WithKey(Unsigned, cell, Build(features)) == FirstOf(WithKey(Unsigned, cell, Usable(features)))
  {
    SortByIsStableSort(Unsigned, Usable(features));
    DedupIsStrict(Unsigned, SortBy(Unsigned, Usable(features)));
    DedupKeepsFirst(Unsigned, SortBy(Unsigned, Usable(features)), cell);
  }

  /** write_epoch's order of the leaves, which is the order of the BIGINT column. */
  function LeafOrder(subs: seq<Substation>): seq<Substation> {
    SortBy(Signed, subs)
  }

  /** Sorting again by the stored key is a proper sort, and moves nothing while all keys fit 63 bits. */
  lemma LeafOrderOfBuild(features: seq<Feature>)
    ensures StrictlySortedBy(Signed, LeafOrder(Build(features)))
    ensures forall s :: s in LeafOrder(Build(features)) <==> s in Build(features)
    ensures (forall s :: s in Build(features) ==> s.h3 < 0x8000_0000_0000_0000) ==>
      LeafOrder(Build(features)) == Build(features)
  {
    var subs := Build(features);
    BuildKeepsFirstPerCell(features, 0);
    forall s ensures s in LeafOrder(subs) <==> s in subs {
      SortByHas(Signed, subs, s);
    }
    assert DistinctKeys(Signed, subs) by {
      assert forall i, j :: 0 <= i < j < |subs| ==> Unsigned(subs[i]) < Unsigned(subs[j]);
    }
    SortByIsStrict(Signed, subs);
    if forall s :: s in subs ==> s.h3 < 0x8000_0000_0000_0000 {
      SmallKeysStay(subs);
    }
  }

  lemma SmallKeysStay(subs: seq<Substation>)
    requires StrictlySortedBy(Unsigned, subs)
    requires forall s :: s in subs ==> s.h3 < 0x8000_0000_0000_0000
    ensures LeafOrder(subs) == subs
  {
    assert forall k :: 0 <= k < |subs| ==> subs[k] in subs;
    assert forall i, j :: 0 <= i < j < |subs| ==> Unsigned(subs[i]) < Unsigned(subs[j]);
    SortedStays(Signed, subs);
  }
}
