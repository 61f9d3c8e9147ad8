/** render-core: canonical_json as it is written, and the hashes that rest on it. */
module RenderTools {
  import opened Bytes
  import opened Text
  import opened Json
  import opened CanonicalJson
  import opened CanonicalMeaning

  // ---------------------------------------------------------------------------
  // The writer
  // ---------------------------------------------------------------------------

  /** What the first i items contribute. */
  function ItemsText(items: seq<Json>, i: nat): string
    requires i <= |items|
  {
    PrintItems(NormalizeItems(Gns, items)[..i])
  }

  lemma ItemsTextStep(items: seq<Json>, i: nat)
    requires i < |items|
    ensures ItemsText(items, i + 1) == ItemsText(items, i) + (if i == 0 then "" else ",") + Canonical(Gns, items[i])
  {
    var normal := NormalizeItems(Gns, items);
    assert normal[..i + 1] == normal[..i] + [normal[i]];
    ItemsGrow(normal[..i], normal[i]);
  }

  /** What the first i fields contribute, and whether they contribute at all. */
  function FieldsText(fields: seq<Field>, i: nat): string
    requires i <= |fields|
  {
    PrintFields(NormalizeFields(Gns, fields[..i]))
  }

  predicate AllDropped(fields: seq<Field>, i: nat)
    requires i <= |fields|
  {
    forall k :: 0 <= k < i ==> fields[k].val.Null?
  }

  lemma {:induction false} AllDroppedMeansNone(fields: seq<Field>, i: nat)
    requires i <= |fields|
    ensures AllDropped(fields, i) <==> NormalizeFields(Gns, fields[..i]) == []
  {
    if i == 0 {
    } else {
      assert fields[..i] == fields[..i - 1] + [fields[i - 1]];
      NormalizeFieldsGrow(Gns, fields[..i - 1], fields[i - 1]);
      AllDroppedMeansNone(fields, i - 1);
    }
  }

  lemma FieldsTextStep(fields: seq<Field>, i: nat)
    requires i < |fields|
    ensures fields[i].val.Null? ==> FieldsText(fields, i + 1) == FieldsText(fields, i)
    ensures !fields[i].val.Null? ==>
      FieldsText(fields, i + 1)
      == FieldsText(fields, i) + (if AllDropped(fields, i) then "" else ",")
         + (Quote(fields[i].key) + ":" + Canonical(Gns, fields[i].val))
  {
    var before := NormalizeFields(Gns, fields[..i]);
    assert before + [] == before;
    assert fields[..i + 1] == fields[..i] + [fields[i]];
    NormalizeFieldsGrow(Gns, fields[..i], fields[i]);
    FieldsGrow(NormalizeFields(Gns, fields[..i]), NormalField(Gns, fields[i]));
    AllDroppedMeansNone(fields, i);
  }

  lemma FieldsTextEnds(fields: seq<Field>)
    ensures FieldsText(fields, 0) == ""
    ensures FieldsText(fields, |fields|) == PrintFields(NormalizeFields(Gns, fields))
  {
    assert fields[..0] == [] && fields[..|fields|] == fields;
  }

  lemma SortedFieldIsField(v: Json, sorted: seq<Field>, i: nat)
    requires Unique(v) && v.Obj? && sorted == SortFields(Gns, v.fields) && i < |sorted|
    ensures sorted[i] in v.fields && Unique(sorted[i].val)
  {
    SortSorts(Gns, v.fields);
    assert sorted[i] in sorted;
  }

  lemma Appended(out: string, text: string, comma: string, key: string, value: string, text': string, result: string)
    requires result == out + text + comma + key + ":" + value
    requires text' == text + comma + (key + ":" + value)
    ensures result == out + text'
  {
  }

  /**
   walk: append the canonical text of v to the output. Keys are sorted first, null fields are passed over
   inside the loop, and a comma goes before every field but the first one written.
   */
  method Walk(v: Json, out: string) returns (out': string)
    requires Unique(v)
    ensures out' == out + Canonical(Gns, v)
    decreases v
  {
    match v
    case Arr(items) =>
      out' := WalkItems(v, items, out + "[");
      out' := out' + "]";
    case Obj(fields) =>
      out' := WalkFields(v, SortFields(Gns, fields), out + "{");
      DropSorted(Gns, fields);
      out' := out' + "}";
    case _ =>
      out' := out + Print(v);
  }

  method WalkItems(v: Json, items: seq<Json>, out: string) returns (out': string)
    requires Unique(v) && v == Arr(items)
    ensures out' == out + PrintItems(NormalizeItems(Gns, items))
    decreases v, 0
  {
    out' := out;
    for i := 0 to |items|
      invariant out' == out + ItemsText(items, i)
    {
      ItemsTextStep(items, i);
      if i > 0 {
        out' := out' + ",";
      }
      out' := Walk(items[i], out');
    }
    assert NormalizeItems(Gns, items)[..|items|] == NormalizeItems(Gns, items);
  }

  method WalkFields(v: Json, sorted: seq<Field>, out: string) returns (out': string)
    requires Unique(v) && v.Obj? && sorted == SortFields(Gns, v.fields)
    ensures out' == out + PrintFields(NormalizeFields(Gns, sorted))
    decreases v, 0
  {
    FieldsTextEnds(sorted);
    hide FieldsText, Canonical, Quote, SortFields, NormalizeFields, PrintFields, Unique;
    out' := out;
    var first := true;
    for i := 0 to |sorted|
      invariant first <==> AllDropped(sorted, i)
      invariant out' == out + FieldsText(sorted, i)
    {
      FieldsTextStep(sorted, i);
      var key, val := sorted[i].key, sorted[i].val;
      SortedFieldIsField(v, sorted, i);
      if val.Null? {
        continue;
      }
      ghost var text, comma := FieldsText(sorted, i), if first then "" else ",";
      if !first {
        out' := out' + ",";
      }
      assert out' == (out + text) + comma;
      first := false;
      out' := out' + Quote(key);
      out' := out' + ":";
      out' := Walk(val, out');
      Appended(out, text, comma, Quote(key), Canonical(Gns, val), FieldsText(sorted, i + 1), out');
    }
  }

  /** canonical_json: serde values contain neither undefined nor non-finite parts, so nothing can fail. */
  method CanonicalJsonOf(v: Json) returns (s: string)
    requires Unique(v)
    ensures s == Canonical(Gns, v)
    ensures Printable(v) ==> Parse(s).Some? && Presents(Gns, v, Parse(s).value)
  {
    s := Walk(v, "");
    if Printable(v) {
      PrintableSerializes(v);
      CanonicalTextPresents(Gns, v);
    }
  }

  // ---------------------------------------------------------------------------
  // Hashes over canonical text
  // ---------------------------------------------------------------------------

  /** The content hash of a cell, and the claim hash of an attestation. */
  function ContentHash(h: HashFn, v: Json): Digest {
    h(Utf8(Canonical(Gns, v)))
  }

  /** A value a Rust program can hold: no undefined, no non-finite number, no duplicate key. */
  predicate SerdeValue(v: Json) {
    Printable(v) && Unique(v)
  }

  lemma {:induction false} PrintableSerializes(v: Json)
    requires Printable(v)
    ensures Serializable(Gns, v)
    decreases v
  {
    match v
    case Arr(items) =>
      forall x | x in items ensures Serializable(Gns, x) {
        PrintableSerializes(x);
      }
    case Obj(fields) =>
      forall f | f in fields ensures Serializable(Gns, f.val) {
        PrintableSerializes(f.val);
      }
    case _ =>
  }

  /**
   One content hash, one payload: values hash alike exactly when they agree up to null fields and key
   order, unless their canonical bytes are a collision.
   */
  lemma ContentHashIdentifies(h: HashFn, v: Json, w: Json)
    requires SerdeValue(v) && SerdeValue(w)
    requires !Collision(h, (Utf8(Canonical(Gns, v)), Utf8(Canonical(Gns, w))))
    ensures ContentHash(h, v) == ContentHash(h, w) <==> Same(Gns, v, w)
  {
    PrintableSerializes(v);
    PrintableSerializes(w);
    CanonicalTextIdentifies(Gns, v, w);
    if ContentHash(h, v) == ContentHash(h, w) {
      Utf8Injective(Canonical(Gns, v), Canonical(Gns, w));
    }
  }
}
