/**
 Both canonical forms of the repository. They drop different fields and sort by different orders, and
 agree on everything else: canonical text is the compact text of a normalised value.
 */
module CanonicalJson {
  import opened Bytes
  import opened Text
  import opened Json

  /** Gns is canonical_json in render-core; Rfc8785 is jcs in the lab verifier. */
  datatype Style = Gns | Rfc8785

  predicate Dropped(style: Style, v: Json) {
    v == if style == Gns then Null else Undefined
  }

  /** Rust compares keys by their bytes, JavaScript by their UTF-16 code units. */
  predicate Before(style: Style, a: string, b: string) {
    if style == Gns then Precedes(Utf8(a), Utf8(b)) else Precedes(Utf16(a), Utf16(b))
  }

  // ---------------------------------------------------------------------------
  // Sorting fields
  // ---------------------------------------------------------------------------

  function Insert(style: Style, f: Field, fields: seq<Field>): seq<Field> {
    if fields == [] || Before(style, f.key, fields[0].key) then [f] + fields
    else [fields[0]] + Insert(style, f, fields[1..])
  }

  function SortFields(style: Style, fields: seq<Field>): seq<Field> {
    if fields == [] then [] else Insert(style, fields[0], SortFields(style, fields[1..]))
  }

  predicate Sorted(style: Style, fields: seq<Field>) {
    forall i, j :: 0 <= i < j < |fields| ==> Before(style, fields[i].key, fields[j].key)
  }

  predicate DistinctKeys(fields: seq<Field>) {
    forall i, j :: 0 <= i < j < |fields| ==> fields[i].key != fields[j].key
  }

  lemma BeforeIsTotal(style: Style, a: string, b: string)
    ensures Before(style, a, b) || a == b || Before(style, b, a)
    ensures !(Before(style, a, b) && Before(style, b, a)) && !Before(style, a, a)
  {
    PrecedesIsTotal(Utf8(a), Utf8(b));
    PrecedesIsTotal(Utf16(a), Utf16(b));
    PrecedesIsTotal(Utf8(a), Utf8(a));
    PrecedesIsTotal(Utf16(a), Utf16(a));
    if Utf8(a) == Utf8(b) {
      Utf8Injective(a, b);
    }
    if Utf16(a) == Utf16(b) {
      Utf16Injective(a, b);
    }
  }

  lemma BeforeIsTransitive(style: Style, a: string, b: string, c: string)
    requires Before(style, a, b) && Before(style, b, c)
    ensures Before(style, a, c)
  {
    if style == Gns {
      PrecedesIsTransitive(Utf8(a), Utf8(b), Utf8(c));
    } else {
      PrecedesIsTransitive(Utf16(a), Utf16(b), Utf16(c));
    }
  }

  lemma {:induction false} InsertSorts(style: Style, f: Field, fields: seq<Field>)
    requires Sorted(style, fields)
    requires forall g :: g in fields ==> g.key != f.key
    ensures Sorted(style, Insert(style, f, fields))
    ensures forall g :: g in Insert(style, f, fields) <==> g == f || g in fields
  {
    if fields == [] {
    } else if Before(style, f.key, fields[0].key) {
      forall j | 0 < j < |fields| ensures Before(style, f.key, fields[j].key) {
        BeforeIsTransitive(style, f.key, fields[0].key, fields[j].key);
      }
    } else {
      var rest := Insert(style, f, fields[1..]);
      InsertSorts(style, f, fields[1..]);
      BeforeIsTotal(style, f.key, fields[0].key);
      forall j | 0 <= j < |rest| ensures Before(style, fields[0].key, rest[j].key) {
        assert rest[j] in rest;
      }
    }
  }

  lemma {:induction false} SortSorts(style: Style, fields: seq<Field>)
    requires DistinctKeys(fields)
    ensures Sorted(style, SortFields(style, fields))
    ensures forall g :: g in SortFields(style, fields) <==> g in fields
  {
    if fields == [] {
    } else {
      SortSorts(style, fields[1..]);
      InsertSorts(style, fields[0], SortFields(style, fields[1..]));
    }
  }

  lemma SomeField(a: seq<Field>, b: seq<Field>)
    requires a != [] && forall g :: g in a ==> g in b
    ensures b != []
  {
    assert a[0] in b;
  }

  /** Sorted lists with the same fields are the same list. */
  lemma {:induction false} SortedIsUnique(style: Style, a: seq<Field>, b: seq<Field>)
    requires Sorted(style, a) && Sorted(style, b)
    requires forall g :: g in a <==> g in b
    ensures a == b
  {
    if a != [] {
      SomeField(a, b);
    }
    if b != [] {
      SomeField(b, a);
      assert a[0] in a && b[0] in b;
      var i :| 0 <= i < |b| && b[i] == a[0];
      var j :| 0 <= j < |a| && a[j] == b[0];
      BeforeIsTotal(style, a[0].key, b[0].key);
      assert i == 0 && j == 0;
      forall g ensures g in a[1..] <==> g in b[1..] {
        TailOfSorted(style, a, g);
        TailOfSorted(style, b, g);
      }
      SortedIsUnique(style, a[1..], b[1..]);
    }
  }

  lemma TailOfSorted(style: Style, a: seq<Field>, g: Field)
    requires a != [] && Sorted(style, a)
    ensures g in a[1..] <==> g in a && g != a[0]
  {
    BeforeIsTotal(style, a[0].key, a[0].key);
  }

  // ---------------------------------------------------------------------------
  // Normalised values and canonical text
  // ---------------------------------------------------------------------------

  function Normalize(style: Style, v: Json): Json
    decreases v, 1
  {
    match v
    case Arr(items) => Arr(NormalizeItems(style, items))
    case Obj(fields) => Obj(SortFields(style, NormalizeFields(style, fields)))
    case _ => v
  }

  function NormalizeItems(style: Style, items: seq<Json>): (r: seq<Json>)
    ensures |r| == |items| && forall k :: 0 <= k < |items| ==> r[k] == Normalize(style, items[k])
    decreases items, 0
  {
    if items == [] then [] else [Normalize(style, items[0])] + NormalizeItems(style, items[1..])
  }

  function NormalizeFields(style: Style, fields: seq<Field>): seq<Field>
    decreases fields, 0
  {
    if fields == [] then []
    else if Dropped(style, fields[0].val) then NormalizeFields(style, fields[1..])
    else [Field(fields[0].key, Normalize(style, fields[0].val))] + NormalizeFields(style, fields[1..])
  }

  function Canonical(style: Style, v: Json): string {
    Print(Normalize(style, v))
  }

  /** No object holds one key twice. */
  predicate Unique(v: Json)
    decreases v
  {
    match v
    case Arr(items) => forall x :: x in items ==> Unique(x)
    case Obj(fields) => DistinctKeys(fields) && forall f :: f in fields ==> Unique(f.val)
    case _ => true
  }

  /** Everything that is not dropped can be printed. */
  predicate Serializable(style: Style, v: Json)
    decreases v
  {
    match v
    case Undefined => false
    case NonFinite => false
    case Num(text) => NumberText(text)
    case Arr(items) => forall x :: x in items ==> Serializable(style, x)
    case Obj(fields) => forall f :: f in fields ==> Dropped(style, f.val) || Serializable(style, f.val)
    case _ => true
  }

  /** Equal up to the order of fields and the fields that are dropped, at every depth. */
  ghost predicate Same(style: Style, v: Json, w: Json)
    decreases v
  {
    match (v, w)
    case (Arr(a), Arr(b)) => |a| == |b| && forall k :: 0 <= k < |a| ==> Same(style, a[k], b[k])
    case (Obj(f), Obj(g)) =>
      && (forall x :: x in f && !Dropped(style, x.val) ==> exists y :: y in g && SameField(style, x, y))
      && (forall y :: y in g && !Dropped(style, y.val) ==> exists x :: x in f && SameField(style, x, y))
    case _ => v == w
  }

  ghost predicate SameField(style: Style, x: Field, y: Field)
    decreases x
  {
    x.key == y.key && !Dropped(style, x.val) && !Dropped(style, y.val) && Same(style, x.val, y.val)
  }

  function NormalField(style: Style, x: Field): Field {
    Field(x.key, Normalize(style, x.val))
  }

  lemma {:induction false} NormalFieldsAre(style: Style, fields: seq<Field>)
    ensures forall g :: g in NormalizeFields(style, fields)
                   <==> exists x :: x in fields && !Dropped(style, x.val) && g == NormalField(style, x)
    ensures DistinctKeys(fields) ==> DistinctKeys(NormalizeFields(style, fields))
  {
    if fields == [] {
    } else {
      var rest := NormalizeFields(style, fields[1..]);
      NormalFieldsAre(style, fields[1..]);
      assert fields == [fields[0]] + fields[1..];
      if DistinctKeys(fields) {
        forall k | 0 <= k < |rest| ensures rest[k].key != fields[0].key {
          assert rest[k] in rest;
        }
      }
    }
  }

  // ---------------------------------------------------------------------------
  // What canonical text determines
  // ---------------------------------------------------------------------------

  /** The normal forms of two values are one value exactly when the values are the same. */
  lemma {:induction false} NormalFormsAgree(style: Style, v: Json, w: Json)
    requires Unique(v) && Unique(w)
    ensures Normalize(style, v) == Normalize(style, w) <==> Same(style, v, w)
    decreases v
  {
    match (v, w)
    case (Arr(a), Arr(b)) =>
      if |a| == |b| {
        forall k | 0 <= k < |a|
          ensures Normalize(style, a[k]) == Normalize(style, b[k]) <==> Same(style, a[k], b[k])
        {
          NormalFormsAgree(style, a[k], b[k]);
        }
      }
      ItemsAgree(style, a, b);
    case (Obj(f), Obj(g)) =>
      forall x, y | x in f && y in g
        ensures Normalize(style, x.val) == Normalize(style, y.val) <==> Same(style, x.val, y.val)
      {
        NormalFormsAgree(style, x.val, y.val);
      }
      assert FieldsComparable(style, f, g);
      FieldsAgree(style, f, g);
    case _ =>
  }

  lemma ItemsAgree(style: Style, a: seq<Json>, b: seq<Json>)
    ensures NormalizeItems(style, a) == NormalizeItems(style, b)
       <==> |a| == |b| && forall k :: 0 <= k < |a| ==> Normalize(style, a[k]) == Normalize(style, b[k])
  {
    if NormalizeItems(style, a) == NormalizeItems(style, b) {
      forall k | 0 <= k < |a| ensures Normalize(style, a[k]) == Normalize(style, b[k]) {
        assert NormalizeItems(style, a)[k] == NormalizeItems(style, b)[k];
      }
    }
  }

  ghost predicate FieldsComparable(style: Style, f: seq<Field>, g: seq<Field>) {
    forall x, y :: x in f && y in g ==>
      (Normalize(style, x.val) == Normalize(style, y.val) <==> Same(style, x.val, y.val))
  }

  lemma NormalFieldIn(style: Style, f: seq<Field>, g: seq<Field>, n: Field)
    requires FieldsComparable(style, f, g) && Same(style, Obj(f), Obj(g))
    requires n in NormalizeFields(style, f)
    ensures n in NormalizeFields(style, g)
  {
    NormalFieldsAre(style, f);
    NormalFieldsAre(style, g);
    var x :| x in f && !Dropped(style, x.val) && n == NormalField(style, x);
    var y := Match(style, f, g, x);
    assert n == NormalField(style, y);
  }

  lemma Match(style: Style, f: seq<Field>, g: seq<Field>, x: Field) returns (y: Field)
    requires Same(style, Obj(f), Obj(g)) && x in f && !Dropped(style, x.val)
    ensures y in g && SameField(style, x, y)
  {
    y :| y in g && SameField(style, x, y);
  }

  lemma MatchBack(style: Style, f: seq<Field>, g: seq<Field>, y: Field) returns (x: Field)
    requires Same(style, Obj(f), Obj(g)) && y in g && !Dropped(style, y.val)
    ensures x in f && SameField(style, x, y)
  {
    x :| x in f && SameField(style, x, y);
  }

  lemma NormalFieldBack(style: Style, f: seq<Field>, g: seq<Field>, n: Field)
    requires FieldsComparable(style, f, g) && Same(style, Obj(f), Obj(g))
    requires n in NormalizeFields(style, g)
    ensures n in NormalizeFields(style, f)
  {
    NormalFieldsAre(style, f);
    NormalFieldsAre(style, g);
    var y :| y in g && !Dropped(style, y.val) && n == NormalField(style, y);
    var x := MatchBack(style, f, g, y);
    assert n == NormalField(style, x);
  }

  lemma SameFieldsFrom(style: Style, f: seq<Field>, g: seq<Field>)
    requires FieldsComparable(style, f, g)
    requires forall n :: n in NormalizeFields(style, f) <==> n in NormalizeFields(style, g)
    ensures Same(style, Obj(f), Obj(g))
  {
    NormalFieldsAre(style, f);
    NormalFieldsAre(style, g);
    forall x | x in f && !Dropped(style, x.val) ensures exists y :: y in g && SameField(style, x, y) {
      assert NormalField(style, x) in NormalizeFields(style, g);
      var y :| y in g && !Dropped(style, y.val) && NormalField(style, x) == NormalField(style, y);
      assert SameField(style, x, y);
    }
    forall y | y in g && !Dropped(style, y.val) ensures exists x :: x in f && SameField(style, x, y) {
      assert NormalField(style, y) in NormalizeFields(style, f);
      var x :| x in f && !Dropped(style, x.val) && NormalField(style, y) == NormalField(style, x);
      assert SameField(style, x, y);
    }
  }

  lemma FieldsAgree(style: Style, f: seq<Field>, g: seq<Field>)
    requires DistinctKeys(f) && DistinctKeys(g) && FieldsComparable(style, f, g)
    ensures Normalize(style, Obj(f)) == Normalize(style, Obj(g)) <==> Same(style, Obj(f), Obj(g))
  {
    var nf, ng := NormalizeFields(style, f), NormalizeFields(style, g);
    assert DistinctKeys(nf) && DistinctKeys(ng) by {
      NormalFieldsAre(style, f);
      NormalFieldsAre(style, g);
    }
    SortSorts(style, nf);
    SortSorts(style, ng);
    if Same(style, Obj(f), Obj(g)) {
      forall n ensures n in nf <==> n in ng {
        if n in nf {
          NormalFieldIn(style, f, g, n);
        }
        if n in ng {
          NormalFieldBack(style, f, g, n);
        }
      }
      SortedIsUnique(style, SortFields(style, nf), SortFields(style, ng));
    } else if SortFields(style, nf) == SortFields(style, ng) {
      assert forall n :: n in nf <==> n in SortFields(style, ng);
      SameFieldsFrom(style, f, g);
    }
  }

  lemma {:induction false} NormalFormPrints(style: Style, v: Json)
    requires Unique(v) && Serializable(style, v)
    ensures Printable(Normalize(style, v))
    decreases v
  {
    match v
    case Arr(items) =>
      forall x | x in NormalizeItems(style, items) ensures Printable(x) {
        var k :| 0 <= k < |items| && x == NormalizeItems(style, items)[k];
        NormalFormPrints(style, items[k]);
      }
    case Obj(fields) =>
      NormalFieldsAre(style, fields);
      SortSorts(style, NormalizeFields(style, fields));
      forall n | n in NormalizeFields(style, fields) ensures Printable(n.val) {
        var x :| x in fields && !Dropped(style, x.val) && n == NormalField(style, x);
        NormalFormPrints(style, x.val);
      }
    case _ =>
  }

  /** Reading canonical text gives back the value, sorted and without its dropped fields. */
  lemma ParseCanonical(style: Style, v: Json)
    requires Unique(v) && Serializable(style, v)
    ensures Parse(Canonical(style, v)) == Some(Normalize(style, v))
  {
    NormalFormPrints(style, v);
    ParsePrinted(Normalize(style, v));
  }

  /** Two values have one canonical text exactly when they are the same. */
  lemma CanonicalTextIdentifies(style: Style, v: Json, w: Json)
    requires Unique(v) && Serializable(style, v)
    requires Unique(w) && Serializable(style, w)
    ensures Canonical(style, v) == Canonical(style, w) <==> Same(style, v, w)
  {
    ParseCanonical(style, v);
    ParseCanonical(style, w);
    NormalFormsAgree(style, v, w);
  }

  lemma {:induction false} SameIsReflexive(style: Style, v: Json)
    ensures Same(style, v, v)
    decreases v
  {
    match v
    case Arr(items) =>
      forall k | 0 <= k < |items| ensures Same(style, items[k], items[k]) {
        SameIsReflexive(style, items[k]);
      }
    case Obj(fields) =>
      forall x | x in fields && !Dropped(style, x.val) ensures SameField(style, x, x) {
        SameIsReflexive(style, x.val);
      }
    case _ =>
  }

  /** The order fields are stored in never reaches the text. */
  lemma FieldOrderIrrelevant(style: Style, f: seq<Field>, g: seq<Field>)
    requires Unique(Obj(f)) && Unique(Obj(g)) && forall x :: x in f <==> x in g
    ensures Canonical(style, Obj(f)) == Canonical(style, Obj(g))
  {
    forall x | x in f && !Dropped(style, x.val) ensures SameField(style, x, x) {
      SameIsReflexive(style, x.val);
    }
    assert Same(style, Obj(f), Obj(g));
    NormalFormsAgree(style, Obj(f), Obj(g));
  }

  // ---------------------------------------------------------------------------
  // Building text field by field
  // ---------------------------------------------------------------------------

  lemma {:induction false} ItemsGrow(items: seq<Json>, x: Json)
    ensures PrintItems(items + [x]) == PrintItems(items) + (if items == [] then "" else ",") + Print(x)
  {
    if items == [] {
    } else {
      assert (items + [x])[1..] == items[1..] + [x];
      ItemsGrow(items[1..], x);
    }
  }

  lemma {:induction false} FieldsGrow(fields: seq<Field>, f: Field)
    ensures PrintFields(fields + [f]) == PrintFields(fields) + (if fields == [] then "" else ",") + PrintField(f)
  {
    if fields == [] {
    } else {
      assert (fields + [f])[1..] == fields[1..] + [f];
      FieldsGrow(fields[1..], f);
    }
  }

  lemma {:induction false} NormalizeFieldsGrow(style: Style, fields: seq<Field>, f: Field)
    ensures NormalizeFields(style, fields + [f])
         == NormalizeFields(style, fields) + if Dropped(style, f.val) then [] else [NormalField(style, f)]
  {
    if fields == [] {
      assert fields + [f] == [f];
    } else {
      assert (fields + [f])[1..] == fields[1..] + [f];
      NormalizeFieldsGrow(style, fields[1..], f);
    }
  }

  /** Sorting all keys and then skipping is skipping and then sorting. */
  lemma DropSorted(style: Style, fields: seq<Field>)
    requires DistinctKeys(fields)
    ensures NormalizeFields(style, SortFields(style, fields)) == SortFields(style, NormalizeFields(style, fields))
  {
    var sorted, normal := SortFields(style, fields), NormalizeFields(style, fields);
    SortSorts(style, fields);
    NormalFieldsAre(style, fields);
    NormalFieldsAre(style, sorted);
    SortSorts(style, normal);
    DroppingKeepsOrder(style, sorted);
    SortedIsUnique(style, NormalizeFields(style, sorted), SortFields(style, normal));
  }

  lemma {:induction false} DroppingKeepsOrder(style: Style, fields: seq<Field>)
    requires Sorted(style, fields)
    ensures Sorted(style, NormalizeFields(style, fields))
  {
    if fields == [] {
    } else {
      var rest := NormalizeFields(style, fields[1..]);
      DroppingKeepsOrder(style, fields[1..]);
      NormalFieldsAre(style, fields[1..]);
      forall k | 0 <= k < |rest| ensures Before(style, fields[0].key, rest[k].key) {
        assert rest[k] in rest;
        var x :| x in fields[1..] && rest[k] == NormalField(style, x);
      }
    }
  }
}
