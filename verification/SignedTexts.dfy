/** demo/lab_verify.js: what the signatures of records and certificates cover. */
module SignedTexts {
  import opened Bytes
  import opened Text
  import opened Json
  import opened CanonicalJson
  import opened CanonicalMeaning
  import opened LabVerify

  // ---------------------------------------------------------------------------
  // Reading properties of objects that are the same
  // ---------------------------------------------------------------------------

  lemma {:induction false} LookupIs(fields: seq<Field>, x: Field)
    requires DistinctKeys(fields) && x in fields
    ensures Lookup(fields, x.key) == x.val
  {
    if fields[0] == x {
    } else {
      LookupIs(fields[1..], x);
      var i :| 0 <= i < |fields| && fields[i] == x;
      assert i > 0 && fields[0].key != x.key;
    }
  }

  lemma {:induction false} LookupFinds(fields: seq<Field>, key: string)
    ensures Lookup(fields, key) != Undefined ==> Field(key, Lookup(fields, key)) in fields
    ensures (forall x :: x in fields ==> x.key != key) ==> Lookup(fields, key) == Undefined
  {
    if fields == [] {
    } else {
      LookupFinds(fields[1..], key);
    }
  }

  /** Reading a property: the field's value, and undefined where there is no such field or no object at all. */
  lemma PropertyIs(v: Json, key: string, x: Json)
    ensures !v.Obj? ==> Get(v, key) == Undefined
    ensures v.Obj? && DistinctKeys(v.fields) && Field(key, x) in v.fields ==> Get(v, key) == x
    ensures v.Obj? && (forall f :: f in v.fields ==> f.key != key) ==> Get(v, key) == Undefined
  {
    if v.Obj? {
      LookupFinds(v.fields, key);
      if DistinctKeys(v.fields) && Field(key, x) in v.fields {
        LookupIs(v.fields, Field(key, x));
      }
    }
  }

  /** A property both objects are asked for. */
  ghost predicate ReadsAlike(f: seq<Field>, g: seq<Field>, key: string) {
    Same(Rfc8785, Lookup(f, key), Lookup(g, key))
  }

  lemma SameReadsAlike(f: seq<Field>, g: seq<Field>, key: string)
    requires DistinctKeys(f) && DistinctKeys(g) && Same(Rfc8785, Obj(f), Obj(g))
    ensures ReadsAlike(f, g, key)
  {
    LookupFinds(f, key);
    LookupFinds(g, key);
    if Lookup(f, key) != Undefined {
      var y := Match(Rfc8785, f, g, Field(key, Lookup(f, key)));
      LookupIs(g, y);
    } else if Lookup(g, key) != Undefined {
      var x := MatchBack(Rfc8785, f, g, Field(key, Lookup(g, key)));
      LookupIs(f, x);
    }
  }

  lemma SameAsUndefined(v: Json)
    ensures Same(Rfc8785, v, Undefined) ==> v == Undefined
    ensures Same(Rfc8785, Undefined, v) ==> v == Undefined
  {
  }

  lemma ReadsAlikeIsSame(f: seq<Field>, g: seq<Field>)
    requires DistinctKeys(f) && DistinctKeys(g) && forall key :: ReadsAlike(f, g, key)
    ensures Same(Rfc8785, Obj(f), Obj(g))
  {
    forall x | x in f && !Dropped(Rfc8785, x.val) ensures exists y :: y in g && SameField(Rfc8785, x, y) {
      FoundAlike(f, g, x);
    }
    forall y | y in g && !Dropped(Rfc8785, y.val) ensures exists x :: x in f && SameField(Rfc8785, x, y) {
      FoundBack(f, g, y);
    }
  }

  lemma FoundAlike(f: seq<Field>, g: seq<Field>, x: Field)
    requires DistinctKeys(f) && x in f && x.val != Undefined && ReadsAlike(f, g, x.key)
    ensures exists y :: y in g && SameField(Rfc8785, x, y)
  {
    LookupIs(f, x);
    SameAsUndefined(x.val);
    LookupFinds(g, x.key);
    assert SameField(Rfc8785, x, Field(x.key, Lookup(g, x.key)));
  }

  lemma FoundBack(f: seq<Field>, g: seq<Field>, y: Field)
    requires DistinctKeys(g) && y in g && y.val != Undefined && ReadsAlike(f, g, y.key)
    ensures exists x :: x in f && SameField(Rfc8785, x, y)
  {
    LookupIs(g, y);
    SameAsUndefined(y.val);
    LookupFinds(f, y.key);
    assert SameField(Rfc8785, Field(y.key, Lookup(f, y.key)), y);
  }

  lemma IncreasingKeysDiffer(fields: seq<Field>)
    requires KeysIncrease(Rfc8785, fields)
    ensures DistinctKeys(fields)
  {
    forall i, j | 0 <= i < j < |fields| ensures fields[i].key != fields[j].key {
      assert KeyPrecedes(Rfc8785, fields[i].key, fields[j].key);
      PrecedesIsTotal(Utf16(fields[i].key), Utf16(fields[i].key));
    }
  }

  /** The text of an object, read again: an object with keys in order and the same properties. */
  lemma JcsShowsObject(v: Json, key: string)
    requires JsValue(v) && v.Obj? && Jcs(v).Ok?
    ensures Parse(Jcs(v).value).Some? && Parse(Jcs(v).value).value.Obj?
    ensures KeysIncrease(Rfc8785, Parse(Jcs(v).value).value.fields)
    ensures Same(Rfc8785, Get(v, key), Get(Parse(Jcs(v).value).value, key))
  {
    JcsIsCanonical(v);
    JsValuesAreUnique(v);
    CanonicalTextPresents(Rfc8785, v);
    var w := Parse(Jcs(v).value).value;
    IncreasingKeysDiffer(w.fields);
    SameReadsAlike(v.fields, w.fields, key);
  }

  // ---------------------------------------------------------------------------
  // Records
  // ---------------------------------------------------------------------------

  /** What a record says under a key of the signed object; nothing under any other key. */
  function Statement(r: LabRecord, key: string): Json {
    if key == "h3_cell" then r.h3Cell
    else if key == "epoch" then r.epoch
    else if key == "model_version" then r.modelVersion
    else if key == "input" then r.input
    else if key == "model" then r.model
    else if key == "output" then r.output
    else if key == "runtime" then r.runtime
    else if key == "record_version" then r.recordVersion
    else Undefined
  }

  lemma SignableReads(r: LabRecord, key: string)
    ensures Get(SignableContent(r), key) == Statement(r, key)
  {
    hide Lookup;
    var f := SignableContent(r).fields;
    SignableKeysDistinct(r);
    if key == "h3_cell" {
      LookupIs(f, f[0]);
    } else if key == "epoch" {
      LookupIs(f, f[1]);
    } else if key == "model_version" {
      LookupIs(f, f[2]);
    } else if key == "input" {
      LookupIs(f, f[3]);
    } else if key == "model" {
      LookupIs(f, f[4]);
    } else if key == "output" {
      LookupIs(f, f[5]);
    } else if key == "runtime" {
      LookupIs(f, f[6]);
    } else if key == "record_version" {
      LookupIs(f, f[7]);
    } else {
      assert forall x :: x in f ==> x.key != key;
      LookupFinds(f, key);
    }
  }

  /**
   The text a record's signature covers, read again, has under each of the eight keys what the record says
   there, leaves a key out exactly when the record says nothing, and has no other key.
   */
  lemma SignedTextShowsRecord(r: LabRecord, key: string)
    requires SignableValues(r) && Jcs(SignableContent(r)).Ok?
    ensures var w := Parse(Jcs(SignableContent(r)).value);
      && w.Some? && w.value.Obj? && KeysIncrease(Rfc8785, w.value.fields)
      && Same(Rfc8785, Statement(r, key), Get(w.value, key))
  {
    SignableIsJsValue(r);
    JcsShowsObject(SignableContent(r), key);
    SignableReads(r, key);
  }

  /** The outer signature holds exactly when the library accepts it for that text. */
  lemma OuterSignatureVerdict(env: Env, r: LabRecord)
    ensures VerifyOuterSignature(env, r) <==>
      && DecodeJson(r.signerPublicKey).Some? && DecodeJson(r.signatureBytes).Some?
      && Jcs(SignableContent(r)).Ok?
      && env.ed25519(DecodeJson(r.signerPublicKey).value, Utf8(Jcs(SignableContent(r)).value),
                     DecodeJson(r.signatureBytes).value) == Some(true)
  {
  }

  // ---------------------------------------------------------------------------
  // Certificates
  // ---------------------------------------------------------------------------

  lemma {:induction false} WithoutReads(fields: seq<Field>, gone: string, key: string)
    ensures Lookup(Without(fields, gone), key) == if key == gone then Undefined else Lookup(fields, key)
  {
    if fields == [] {
    } else {
      WithoutReads(fields[1..], gone, key);
      var rest := Without(fields[1..], gone);
      if fields[0].key == gone {
        assert Without(fields, gone) == rest;
      } else {
        assert Without(fields, gone) == [fields[0]] + rest && ([fields[0]] + rest)[1..] == rest;
      }
    }
  }

  lemma {:induction false} WithoutHas(fields: seq<Field>, gone: string)
    ensures forall x :: x in Without(fields, gone) <==> x in fields && x.key != gone
    ensures DistinctKeys(fields) ==> DistinctKeys(Without(fields, gone))
  {
    if fields == [] {
    } else {
      var rest := Without(fields[1..], gone);
      WithoutHas(fields[1..], gone);
      if DistinctKeys(fields) {
        forall j | 0 <= j < |rest| ensures rest[j].key != fields[0].key {
          assert rest[j] in rest;
        }
      }
    }
  }

  /** A property of a certificate that its parent answers for. */
  function Certified(cert: Json, key: string): Json {
    if key == "parent_signature" then Undefined else Get(cert, key)
  }

  lemma BodyReads(cert: Json, key: string)
    requires cert.Obj? && JsValue(cert)
    ensures JsValue(Body(cert)) && Get(Body(cert), key) == Certified(cert, key)
  {
    WithoutReads(cert.fields, "parent_signature", key);
    WithoutHas(cert.fields, "parent_signature");
  }

  /** The signed text of a certificate, read again, has all its properties but the signature, and no others. */
  lemma SignedTextShowsCert(cert: Json, key: string)
    requires cert.Obj? && JsValue(cert) && SignedText(cert).Ok?
    ensures var w := Parse(SignedText(cert).value);
      && w.Some? && w.value.Obj? && KeysIncrease(Rfc8785, w.value.fields)
      && Same(Rfc8785, Certified(cert, key), Get(w.value, key))
  {
    BodyReads(cert, key);
    JcsShowsObject(Body(cert), key);
  }

  /** Two certificates say the same about everything but their signatures. */
  ghost predicate SameCertified(c: Json, d: Json) {
    forall key :: Same(Rfc8785, Certified(c, key), Certified(d, key))
  }

  lemma SameBodies(c: Json, d: Json)
    requires c.Obj? && d.Obj? && JsValue(c) && JsValue(d)
    ensures Same(Rfc8785, Body(c), Body(d)) <==> SameCertified(c, d)
  {
    BodyReads(c, "");
    BodyReads(d, "");
    var f, g := Body(c).fields, Body(d).fields;
    forall key ensures ReadsAlike(f, g, key) <==> Same(Rfc8785, Certified(c, key), Certified(d, key)) {
      BodyReads(c, key);
      BodyReads(d, key);
    }
    if Same(Rfc8785, Obj(f), Obj(g)) {
      forall key ensures Same(Rfc8785, Certified(c, key), Certified(d, key)) {
        SameReadsAlike(f, g, key);
      }
    } else if SameCertified(c, d) {
      forall key ensures ReadsAlike(f, g, key) {
        assert Same(Rfc8785, Certified(c, key), Certified(d, key));
      }
      ReadsAlikeIsSame(f, g);
    }
  }

  /** What the signature of a certificate is, in the end: the library's word on its signed text. */
  predicate ParentSigned(env: Env, cert: Json, parent: Json) {
    && DecodeJson(parent).Some? && DecodeJson(Get(cert, "parent_signature")).Some? && SignedText(cert).Ok?
    && env.ed25519(DecodeJson(parent).value, Utf8(SignedText(cert).value),
                   DecodeJson(Get(cert, "parent_signature")).value) == Some(true)
  }

  /** One signature of one key on two certificates: they say the same, or it stands for two different messages. */
  lemma ParentSignatureBindsCert(env: Env, c: Json, d: Json, parent: Json)
    requires c.Obj? && d.Obj? && JsValue(c) && JsValue(d)
    requires Get(c, "parent_signature") == Get(d, "parent_signature")
    requires ParentSigned(env, c, parent) && ParentSigned(env, d, parent)
    ensures
      || SameCertified(c, d)
      || var pk, sig := DecodeJson(parent).value, DecodeJson(Get(c, "parent_signature")).value;
         var m, m' := Utf8(SignedText(c).value), Utf8(SignedText(d).value);
         m != m' && env.ed25519(pk, m, sig) == Some(true) && env.ed25519(pk, m', sig) == Some(true)
  {
    BodyReads(c, "");
    BodyReads(d, "");
    SameBodies(c, d);
    JcsIdentifies(Body(c), Body(d));
    if Utf8(SignedText(c).value) == Utf8(SignedText(d).value) {
      Utf8Injective(SignedText(c).value, SignedText(d).value);
    }
  }

  /** Conversely, certificates that say the same have one signed text, or none. */
  lemma SameCertifiedSameText(c: Json, d: Json)
    requires c.Obj? && d.Obj? && JsValue(c) && JsValue(d) && SameCertified(c, d) && SignedText(c).Ok?
    ensures SignedText(d) == SignedText(c)
  {
    BodyReads(c, "");
    BodyReads(d, "");
    SameBodies(c, d);
    JcsIsCanonical(Body(c));
    SameSerializes(Body(c), Body(d));
    JcsIsCanonical(Body(d));
    JcsIdentifies(Body(c), Body(d));
  }

  // ---------------------------------------------------------------------------
  // Verdicts in terms of properties
  // ---------------------------------------------------------------------------

  /** A date lies in a window whose ends count. */
  predicate Between(env: Env, from: Json, until: Json, now: int) {
    && env.parseDate(from).Some? && env.parseDate(until).Some?
    && env.parseDate(from).value <= now && now <= env.parseDate(until).value
  }

  /** A certificate as it is meant: all seven properties there, current, issued and signed by the key. */
  predicate Certifies(env: Env, cert: Json, parent: Json, now: int) {
    && Get(cert, "subject_public_key") != Undefined && Get(cert, "issued_by_public_key") != Undefined
    && Get(cert, "subject_role") != Undefined && Get(cert, "version") != Undefined
    && Get(cert, "not_before") != Undefined && Get(cert, "not_after") != Undefined
    && Get(cert, "parent_signature") != Undefined
    && Between(env, Get(cert, "not_before"), Get(cert, "not_after"), now)
    && Get(cert, "issued_by_public_key") == parent
    && ParentSigned(env, cert, parent)
  }

  lemma CompleteMeans(cert: Json)
    ensures Complete(cert) <==>
      && Get(cert, "subject_public_key") != Undefined && Get(cert, "issued_by_public_key") != Undefined
      && Get(cert, "subject_role") != Undefined && Get(cert, "not_before") != Undefined
      && Get(cert, "not_after") != Undefined && Get(cert, "version") != Undefined
      && Get(cert, "parent_signature") != Undefined
  {
    hide Get;
    assert REQUIRED[0] == "subject_public_key" && REQUIRED[1] == "issued_by_public_key";
    assert REQUIRED[2] == "subject_role" && REQUIRED[3] == "not_before" && REQUIRED[4] == "not_after";
    assert REQUIRED[5] == "version" && REQUIRED[6] == "parent_signature" && |REQUIRED| == 7;
  }

  /** verifyCert against a key demands exactly that. A key that is no text decodes to nothing and signs nothing. */
  lemma CertVerdict(env: Env, cert: Json, parent: Json, now: int)
    ensures CertHolds(env, cert, Key(parent), now) <==> Certifies(env, cert, parent, now)
  {
    hide Get, Jcs, Body, Complete;
    CompleteMeans(cert);
  }

  /** And the root's, against its own issuer. */
  lemma RootCertVerdict(env: Env, cert: Json, now: int)
    ensures CertHolds(env, cert, OwnIssuer, now) <==> Certifies(env, cert, Issuer(cert), now)
  {
    hide Get, Jcs, Body, Complete;
    CompleteMeans(cert);
  }

  lemma CertifiedByText(env: Env, cert: Json, parent: Json, now: int)
    requires Certifies(env, cert, parent, now)
    ensures !cert.Null? && parent.Str? && Issuer(cert) == parent
  {
    hide Jcs, Body;
  }

  /**
   A good record, said in the record's own properties: three certificates that parse, the root issued by the
   trust root to itself, each certifying the next, the last one certifying the key whose signature on the
   record's statement holds.
   */
  lemma GoodRecord(env: Env, r: LabRecord, trustRoot: Json, now: Clock)
    ensures RecordHolds(env, Some(r), Some(trustRoot), now) <==>
      && r.recordVersion == Num("1") && trustRoot != Str("")
      && env.parse(r.rootCertJson).Some? && env.parse(r.labCertJson).Some? && env.parse(r.runtimeCertJson).Some?
      && ChainCertifies(env, r, trustRoot, env.parse(r.rootCertJson).value, env.parse(r.labCertJson).value,
                        env.parse(r.runtimeCertJson).value, now)
  {
    hide Certifies, CertHolds, VerifyOuterSignature, Issuer, Subject, Get;
    if env.parse(r.rootCertJson).Some? && env.parse(r.labCertJson).Some? && env.parse(r.runtimeCertJson).Some? {
      ChainVerdict(env, r, trustRoot, env.parse(r.rootCertJson).value, env.parse(r.labCertJson).value,
                   env.parse(r.runtimeCertJson).value, now);
    }
  }

  predicate ChainCertifies(env: Env, r: LabRecord, trustRoot: Json, root: Json, lab: Json, runtime: Json, now: Clock) {
    && Get(root, "subject_public_key") == trustRoot
    && Certifies(env, root, trustRoot, now.root)
    && Certifies(env, lab, trustRoot, now.lab)
    && Certifies(env, runtime, Get(lab, "subject_public_key"), now.runtime)
    && Get(runtime, "subject_public_key") == r.signerPublicKey
    && VerifyOuterSignature(env, r)
  }

  lemma ChainVerdict(env: Env, r: LabRecord, trustRoot: Json, root: Json, lab: Json, runtime: Json, now: Clock)
    ensures ChainCertifies(env, r, trustRoot, root, lab, runtime, now) <==>
      && !root.Null? && !lab.Null? && !runtime.Null?
      && ChainHolds(env, r, trustRoot, root, lab, runtime, now)
    ensures ChainCertifies(env, r, trustRoot, root, lab, runtime, now) ==> trustRoot.Str?
  {
    hide Certifies, CertHolds, VerifyOuterSignature, Get;
    RootCertVerdict(env, root, now.root);
    CertVerdict(env, lab, Subject(root), now.lab);
    CertVerdict(env, runtime, Subject(lab), now.runtime);
    if ChainCertifies(env, r, trustRoot, root, lab, runtime, now) {
      CertifiedByText(env, root, trustRoot, now.root);
      CertifiedByText(env, lab, trustRoot, now.lab);
      CertifiedByText(env, runtime, Subject(lab), now.runtime);
      OuterKeyIsText(env, r);
    }
  }

  lemma OuterKeyIsText(env: Env, r: LabRecord)
    ensures VerifyOuterSignature(env, r) ==> r.signerPublicKey.Str?
  {
    hide Jcs;
  }

  // ---------------------------------------------------------------------------
  // Rejected promises
  // ---------------------------------------------------------------------------

  /** Which values have no text: by example, at any depth of arrays, and by their own toString only. */
  lemma TextlessExamples(v: Json)
    ensures Throws(Obj([Field("toString", v)]))
    ensures Throws(Arr([Null, Arr([Obj([Field("toString", v)])])]))
    ensures !Throws(Obj([])) && !Throws(Arr([])) && !Throws(Obj([Field("valueOf", v)]))
    ensures !v.Obj? && !v.Arr? ==> !Throws(v)
  {
    var o := Obj([Field("toString", v)]);
    assert o.fields[0] in o.fields;
    assert Throws(o);
    var a := Arr([o]);
    assert a.items[0] in a.items;
    assert Throws(a);
    var b := Arr([Null, a]);
    assert b.items[1] in b.items;
    assert Throws(b);
    assert "valueOf"[0] != "toString"[0];
  }

  /** A mismatch whose message needs a text that is not there. */
  predicate MismatchThrows(a: Json, b: Json) {
    (a != b || a.Arr? || a.Obj?) && (Throws(a) || Throws(b))
  }

  /** A complete certificate whose dates have texts. */
  predicate DatesRead(cert: Json) {
    Complete(cert) ==> !Throws(Get(cert, "not_before")) && !Throws(Get(cert, "not_after"))
  }

  /**
   Exactly when a lab record's promise is rejected, in the properties' own names: the version is another and has
   no text, or three certificates parse and one is null, or a date or a key that goes into a message has no text.
   */
  lemma RejectedRecord(env: Env, r: LabRecord, trustRoot: Json)
    requires Truthy(trustRoot)
    ensures Rejects(env, Some(r), Some(trustRoot)) <==>
      if r.recordVersion != Num("1") then Throws(r.recordVersion)
      else
        && env.parse(r.rootCertJson).Some? && env.parse(r.labCertJson).Some? && env.parse(r.runtimeCertJson).Some?
        && var root, lab, runtime := env.parse(r.rootCertJson).value, env.parse(r.labCertJson).value,
                                     env.parse(r.runtimeCertJson).value;
        || root == Null || lab == Null || runtime == Null
        || MismatchThrows(Get(root, "issued_by_public_key"), trustRoot)
        || MismatchThrows(Get(root, "subject_public_key"), Get(root, "issued_by_public_key"))
        || !DatesRead(root) || !DatesRead(lab) || !DatesRead(runtime)
        || (Complete(lab) && MismatchThrows(Get(lab, "issued_by_public_key"), Get(root, "subject_public_key")))
        || (Complete(runtime) && MismatchThrows(Get(runtime, "issued_by_public_key"), Get(lab, "subject_public_key")))
        || MismatchThrows(Get(runtime, "subject_public_key"), r.signerPublicKey)
  {
    hide Get, Throws, Complete;
  }

  /** What counts as no trust root. */
  lemma TruthyMeans(v: Json)
    ensures Truthy(v) <==> v !in {Undefined, Null, Bool(false), Str(""), Num("0")}
  {
  }
}
