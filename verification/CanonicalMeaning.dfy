/**
 What canonical text means to a reader who knows JSON and the two orders of keys, and nothing of how the text
 was made.
 */
module CanonicalMeaning {
  import opened Text
  import opened Json
  import opened CanonicalJson

  /** By bytes, or by UTF-16 code units. */
  predicate KeyPrecedes(style: Style, a: string, b: string) {
    match style
    case Gns => Precedes(Utf8(a), Utf8(b))
    case Rfc8785 => Precedes(Utf16(a), Utf16(b))
  }

  predicate KeysIncrease(style: Style, fields: seq<Field>) {
    forall i, j :: 0 <= i < j < |fields| ==> KeyPrecedes(style, fields[i].key, fields[j].key)
  }

  /** canonical_json leaves out null, jcs leaves out undefined. */
  function Absent(style: Style): Json {
    match style case Gns => Null case Rfc8785 => Undefined
  }

  /**
   w is v with the absent fields of every object left out and the others in order: items keep their places,
   and a value that is neither array nor object stays what it is.
   */
  ghost predicate Presents(style: Style, v: Json, w: Json)
    decreases v
  {
    match (v, w)
    case (Arr(a), Arr(b)) => |a| == |b| && forall k :: 0 <= k < |a| ==> Presents(style, a[k], b[k])
    case (Obj(f), Obj(g)) =>
      && KeysIncrease(style, g)
      && (forall y :: y in g ==> y.val != Absent(style))
      && (forall x :: x in f && x.val != Absent(style) ==> exists y :: y in g && PresentsField(style, x, y))
      && (forall y :: y in g ==> exists x :: x in f && x.val != Absent(style) && PresentsField(style, x, y))
    case _ => v == w
  }

  ghost predicate PresentsField(style: Style, x: Field, y: Field)
    decreases x
  {
    x.key == y.key && Presents(style, x.val, y.val)
  }

  lemma PresentedIsKept(style: Style, v: Json, w: Json)
    requires Presents(style, v, w) && v != Absent(style)
    ensures w != Absent(style)
  {
  }

  lemma NormalFieldsIncrease(style: Style, fields: seq<Field>)
    requires Sorted(style, fields)
    ensures KeysIncrease(style, fields)
  {
  }

  lemma {:induction false} NormalFormPresents(style: Style, v: Json)
    requires Unique(v)
    ensures Presents(style, v, Normalize(style, v))
    decreases v
  {
    match v
    case Arr(items) =>
      forall k | 0 <= k < |items| ensures Presents(style, items[k], NormalizeItems(style, items)[k]) {
        NormalFormPresents(style, items[k]);
      }
    case Obj(fields) =>
      forall x | x in fields ensures PresentsField(style, x, NormalField(style, x)) {
        NormalFormPresents(style, x.val);
      }
      FieldsPresented(style, fields);
    case _ =>
  }

  lemma FieldsPresented(style: Style, fields: seq<Field>)
    requires DistinctKeys(fields)
    requires forall x :: x in fields ==> PresentsField(style, x, NormalField(style, x))
    ensures Presents(style, Obj(fields), Normalize(style, Obj(fields)))
  {
    var normal := NormalizeFields(style, fields);
    var sorted := SortFields(style, normal);
    NormalFieldsAre(style, fields);
    SortSorts(style, normal);
    NormalFieldsIncrease(style, sorted);
    forall y | y in sorted
      ensures y.val != Absent(style)
      ensures exists x :: x in fields && x.val != Absent(style) && PresentsField(style, x, y)
    {
      var x :| x in fields && !Dropped(style, x.val) && y == NormalField(style, x);
      PresentedIsKept(style, x.val, y.val);
    }
    forall x | x in fields && x.val != Absent(style)
      ensures exists y :: y in sorted && PresentsField(style, x, y)
    {
      assert NormalField(style, x) in normal;
    }
  }

  lemma {:induction false} NormalFormSame(style: Style, v: Json)
    requires Unique(v)
    ensures Same(style, v, Normalize(style, v))
    decreases v
  {
    match v
    case Arr(items) =>
      forall k | 0 <= k < |items| ensures Same(style, items[k], NormalizeItems(style, items)[k]) {
        NormalFormSame(style, items[k]);
      }
    case Obj(fields) =>
      forall x | x in fields ensures Same(style, x.val, NormalField(style, x).val) {
        NormalFormSame(style, x.val);
      }
      FieldsSame(style, fields);
    case _ =>
  }

  lemma FieldsSame(style: Style, fields: seq<Field>)
    requires DistinctKeys(fields)
    requires forall x :: x in fields ==> Same(style, x.val, NormalField(style, x).val)
    ensures Same(style, Obj(fields), Normalize(style, Obj(fields)))
  {
    var normal := NormalizeFields(style, fields);
    NormalFieldsAre(style, fields);
    SortSorts(style, normal);
    forall x | x in fields && !Dropped(style, x.val)
      ensures exists y :: y in SortFields(style, normal) && SameField(style, x, y)
    {
      assert NormalField(style, x) in normal;
      assert SameField(style, x, NormalField(style, x));
    }
    forall y | y in SortFields(style, normal) && !Dropped(style, y.val)
      ensures exists x :: x in fields && SameField(style, x, y)
    {
      var x :| x in fields && !Dropped(style, x.val) && y == NormalField(style, x);
      assert SameField(style, x, y);
    }
  }

  /** Whoever reads canonical text finds the value itself, without its absent fields and with keys in order. */
  lemma CanonicalTextPresents(style: Style, v: Json)
    requires Unique(v) && Serializable(style, v)
    ensures Parse(Canonical(style, v)).Some?
    ensures Presents(style, v, Parse(Canonical(style, v)).value)
    ensures Same(style, v, Parse(Canonical(style, v)).value)
  {
    ParseCanonical(style, v);
    NormalFormPresents(style, v);
    NormalFormSame(style, v);
  }

  /** A value has a canonical text exactly when what is not dropped of it can be printed. */
  lemma {:induction false} SerializableMeans(style: Style, v: Json)
    requires Unique(v)
    ensures Serializable(style, v) <==> Printable(Normalize(style, v))
    decreases v
  {
    match v
    case Arr(items) =>
      forall k | 0 <= k < |items|
        ensures Serializable(style, items[k]) <==> Printable(NormalizeItems(style, items)[k])
      {
        SerializableMeans(style, items[k]);
      }
      assert forall x :: x in items <==> exists k :: 0 <= k < |items| && items[k] == x;
      var normal := NormalizeItems(style, items);
      if forall x :: x in normal ==> Printable(x) {
        forall x | x in items ensures Serializable(style, x) {
          var k :| 0 <= k < |items| && items[k] == x;
          assert normal[k] in normal;
        }
      }
      if forall x :: x in items ==> Serializable(style, x) {
        forall y | y in normal ensures Printable(y) {
          var k :| 0 <= k < |normal| && normal[k] == y;
          assert items[k] in items;
        }
      }
    case Obj(fields) =>
      forall x | x in fields ensures Serializable(style, x.val) <==> Printable(NormalField(style, x).val) {
        SerializableMeans(style, x.val);
      }
      FieldsSerializable(style, fields);
    case _ =>
  }

  lemma FieldsSerializable(style: Style, fields: seq<Field>)
    requires DistinctKeys(fields)
    requires forall x :: x in fields ==> (Serializable(style, x.val) <==> Printable(NormalField(style, x).val))
    ensures Serializable(style, Obj(fields)) <==> Printable(Normalize(style, Obj(fields)))
  {
    var normal := NormalizeFields(style, fields);
    NormalFieldsAre(style, fields);
    SortSorts(style, normal);
    if Printable(Normalize(style, Obj(fields))) {
      forall x | x in fields && !Dropped(style, x.val) ensures Serializable(style, x.val) {
        assert NormalField(style, x) in normal;
      }
    }
    if Serializable(style, Obj(fields)) {
      forall y | y in SortFields(style, normal) ensures Printable(y.val) {
        var x :| x in fields && !Dropped(style, x.val) && y == NormalField(style, x);
      }
    }
  }
}
