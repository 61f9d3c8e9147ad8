/** demo/lab_verify.js: RFC 8785 text, certificates, and the verdict on a lab record. */
module LabVerify {
  import opened Bytes
  import opened Text
  import opened Json
  import opened CanonicalJson
  import opened Base64Url

  // ---------------------------------------------------------------------------
  // jcs
  // ---------------------------------------------------------------------------

  datatype JcsError = UndefinedValue | NonFiniteNumber

  function Kept(fields: seq<Field>): seq<Field> {
    if fields == [] then []
    else (if fields[0].val == Undefined then [] else [fields[0]]) + Kept(fields[1..])
  }

  lemma {:induction false} KeptHas(fields: seq<Field>, f: Field)
    ensures f in Kept(fields) <==> f in fields && f.val != Undefined
  {
    if fields == [] {
    } else {
      KeptHas(fields[1..], f);
    }
  }

  lemma {:induction false} InsertHas(f: Field, fields: seq<Field>, g: Field)
    ensures g in Insert(Rfc8785, f, fields) <==> g == f || g in fields
  {
    if fields == [] || Before(Rfc8785, f.key, fields[0].key) {
    } else {
      InsertHas(f, fields[1..], g);
    }
  }

  lemma {:induction false} SortHas(fields: seq<Field>, g: Field)
    ensures g in SortFields(Rfc8785, fields) <==> g in fields
  {
    if fields == [] {
    } else {
      SortHas(fields[1..], g);
      InsertHas(fields[0], SortFields(Rfc8785, fields[1..]), g);
    }
  }

  function Join(parts: seq<string>): string {
    if parts == [] then "" else if |parts| == 1 then parts[0] else parts[0] + "," + Join(parts[1..])
  }

  /** Fields whose value is undefined are filtered out, keys are sorted, and anything else undefined is an error. */
  function Jcs(v: Json): Result<string, JcsError>
    decreases v, 1
  {
    match v
    case Undefined => Err(UndefinedValue)
    case NonFinite => Err(NonFiniteNumber)
    case Arr(items) =>
      (match JcsItems(items)
       case Err(e) => Err(e)
       case Ok(parts) => Ok("[" + Join(parts) + "]"))
    case Obj(fields) =>
      var sorted := SortFields(Rfc8785, Kept(fields));
      SortedAreSmaller(fields);
      (match JcsFields(v, sorted)
       case Err(e) => Err(e)
       case Ok(parts) => Ok("{" + Join(parts) + "}"))
    case _ => Ok(Print(v))
  }

  lemma SortedAreSmaller(fields: seq<Field>)
    ensures forall f :: f in SortFields(Rfc8785, Kept(fields)) ==> f.val < Obj(fields)
  {
    forall f | f in SortFields(Rfc8785, Kept(fields)) ensures f.val < Obj(fields) {
      SortHas(Kept(fields), f);
      KeptHas(fields, f);
    }
  }

  function JcsItems(items: seq<Json>): Result<seq<string>, JcsError>
    decreases items, 0
  {
    if items == [] then Ok([])
    else
      match Jcs(items[0])
      case Err(e) => Err(e)
      case Ok(part) =>
        match JcsItems(items[1..])
        case Err(e) => Err(e)
        case Ok(parts) => Ok([part] + parts)
  }

  function JcsFields(whole: Json, fields: seq<Field>): Result<seq<string>, JcsError>
    requires forall f :: f in fields ==> f.val < whole
    decreases whole, 0, |fields|
  {
    if fields == [] then Ok([])
    else
      assert fields[0] in fields;
      match Jcs(fields[0].val)
      case Err(e) => Err(e)
      case Ok(part) =>
        match JcsFields(whole, fields[1..])
        case Err(e) => Err(e)
        case Ok(parts) => Ok([Quote(fields[0].key) + ":" + part] + parts)
  }

  /** Values as JavaScript holds them: distinct keys, numbers by the text they print as. */
  predicate JsValue(v: Json)
    decreases v
  {
    match v
    case Num(text) => NumberText(text)
    case Arr(items) => forall x :: x in items ==> JsValue(x)
    case Obj(fields) => DistinctKeys(fields) && forall f :: f in fields ==> JsValue(f.val)
    case _ => true
  }

  lemma {:induction false} JsValuesAreUnique(v: Json)
    requires JsValue(v)
    ensures Unique(v)
    decreases v
  {
    match v
    case Arr(items) =>
      forall x | x in items ensures Unique(x) {
        JsValuesAreUnique(x);
      }
    case Obj(fields) =>
      forall f | f in fields ensures Unique(f.val) {
        JsValuesAreUnique(f.val);
      }
    case _ =>
  }

  /** jcs succeeds exactly on serialisable values, and then it is the canonical text of RFC 8785. */
  lemma {:induction false} JcsIsCanonical(v: Json)
    requires JsValue(v)
    ensures Jcs(v).Ok? <==> Serializable(Rfc8785, v)
    ensures Jcs(v).Ok? ==> Jcs(v).value == Canonical(Rfc8785, v)
    decreases v, 1
  {
    match v
    case Arr(items) => JcsItemsAre(items);
    case Obj(fields) =>
      var kept := Kept(fields);
      var sorted := SortFields(Rfc8785, kept);
      SortedAreSmaller(fields);
      KeptNormalizes(fields);
      DropSorted(Rfc8785, kept);
      forall f ensures f in sorted <==> f in fields && f.val != Undefined {
        SortHas(kept, f);
        KeptHas(fields, f);
      }
      JcsFieldsAre(v, sorted);
    case _ =>
  }

  lemma {:induction false} KeptNormalizes(fields: seq<Field>)
    ensures NormalizeFields(Rfc8785, Kept(fields)) == NormalizeFields(Rfc8785, fields)
    ensures DistinctKeys(fields) ==> DistinctKeys(Kept(fields))
  {
    hide Normalize;
    if fields == [] {
    } else {
      KeptNormalizes(fields[1..]);
      if fields[0].val != Undefined {
        assert Kept(fields)[1..] == Kept(fields[1..]);
        forall k | 0 <= k < |Kept(fields[1..])| ensures Kept(fields[1..])[k] in fields[1..] {
          KeptHas(fields[1..], Kept(fields[1..])[k]);
        }
      } else {
        assert Kept(fields) == Kept(fields[1..]);
      }
    }
  }

  lemma {:induction false} JcsItemsAre(items: seq<Json>)
    requires forall x :: x in items ==> JsValue(x)
    ensures JcsItems(items).Ok? <==> forall x :: x in items ==> Serializable(Rfc8785, x)
    ensures JcsItems(items).Ok? ==>
      |JcsItems(items).value| == |items|
      && Join(JcsItems(items).value) == PrintItems(NormalizeItems(Rfc8785, items))
    decreases items, 0
  {
    if items == [] {
    } else {
      JcsIsCanonical(items[0]);
      JcsItemsAre(items[1..]);
      if JcsItems(items).Ok? {
        assert JcsItems(items).value[1..] == JcsItems(items[1..]).value;
        assert NormalizeItems(Rfc8785, items)[1..] == NormalizeItems(Rfc8785, items[1..]);
      }
      assert items == [items[0]] + items[1..];
    }
  }

  lemma {:induction false} JcsFieldsAre(whole: Json, fields: seq<Field>)
    requires forall f :: f in fields ==> f.val < whole && f.val != Undefined && JsValue(f.val)
    ensures JcsFields(whole, fields).Ok? <==> forall f :: f in fields ==> Serializable(Rfc8785, f.val)
    ensures JcsFields(whole, fields).Ok? ==>
      |JcsFields(whole, fields).value| == |fields| == |NormalizeFields(Rfc8785, fields)|
      && Join(JcsFields(whole, fields).value) == PrintFields(NormalizeFields(Rfc8785, fields))
    decreases whole, 0, |fields|
  {
    if fields == [] {
    } else {
      assert fields[0] in fields;
      JcsIsCanonical(fields[0].val);
      JcsFieldsAre(whole, fields[1..]);
      if JcsFields(whole, fields).Ok? {
        assert JcsFields(whole, fields).value[1..] == JcsFields(whole, fields[1..]).value;
        assert NormalizeFields(Rfc8785, fields)[1..] == NormalizeFields(Rfc8785, fields[1..]);
      }
      assert fields == [fields[0]] + fields[1..];
    }
  }

  /** One jcs text, one value, up to key order and undefined fields. */
  lemma JcsIdentifies(v: Json, w: Json)
    requires JsValue(v) && JsValue(w) && Jcs(v).Ok? && Jcs(w).Ok?
    ensures Jcs(v) == Jcs(w) <==> Same(Rfc8785, v, w)
  {
    JcsIsCanonical(v);
    JcsIsCanonical(w);
    JsValuesAreUnique(v);
    JsValuesAreUnique(w);
    CanonicalTextIdentifies(Rfc8785, v, w);
  }

  // ---------------------------------------------------------------------------
  // Records and certificates
  // ---------------------------------------------------------------------------

  /** A record as the MCP tool returns it. Certificates are meant to be JSON texts. */
  datatype LabRecord = LabRecord(
    h3Cell: Json, epoch: Json, modelVersion: Json, input: Json, model: Json, output: Json, runtime: Json,
    recordVersion: Json, signerPublicKey: Json, signatureBytes: Json, signedAt: Json, delegationChainHash: Json,
    rootCertJson: Json, labCertJson: Json, runtimeCertJson: Json)

  /**
   What the page runs in: JSON.parse (None when it throws, be it on turning its argument into a text),
   Date.parse of a value that can be turned into a text (None for NaN), and Ed25519 with the key, the message
   and the signature as arguments (None when it throws).
   */
  datatype Env = Env(
    parse: Json -> Option<Json>,
    parseDate: Json -> Option<int>,
    ed25519: (Bytes, Bytes, Bytes) -> Option<bool>)

  /** Date.now() when each of the three certificates is looked at. */
  datatype Clock = Clock(root: int, lab: int, runtime: int)

  /** Reading a property. Null has none to read: where a value can be null, that it throws is stated apart. */
  function Get(v: Json, key: string): Json {
    if v.Obj? then Lookup(v.fields, key) else Undefined
  }

  function Issuer(cert: Json): Json {
    Get(cert, "issued_by_public_key")
  }

  function Subject(cert: Json): Json {
    Get(cert, "subject_public_key")
  }

  function Lookup(fields: seq<Field>, key: string): Json {
    if fields == [] then Undefined
    else if fields[0].key == key then fields[0].val
    else Lookup(fields[1..], key)
  }

  function Without(fields: seq<Field>, key: string): seq<Field> {
    if fields == [] then []
    else (if fields[0].key == key then [] else [fields[0]]) + Without(fields[1..], key)
  }

  /** === on values that are not objects. Two objects read from different texts are never identical. */
  predicate Identical(a: Json, b: Json) {
    a == b && !a.Arr? && !a.Obj?
  }

  /**
   Turning the value into a text throws: an object that has a field of its own called toString, which from
   JSON is no function, and an array with such an element at any depth. Date.parse and message templates do it.
   */
  predicate Throws(v: Json)
    decreases v
  {
    match v
    case Obj(fields) => exists f :: f in fields && f.key == "toString"
    case Arr(items) => exists x :: x in items && Throws(x)
    case _ => false
  }

  predicate Truthy(v: Json) {
    v != Undefined && v != Null && v != Bool(false) && v != Str("") && v != Num("0")
  }

  function DecodeJson(v: Json): Option<Bytes> {
    if v.Str? then Decode(v.s) else None
  }

  /** A signature over the RFC 8785 text of a value. None when any step throws. */
  function Signed(env: Env, key: Json, body: Json, signature: Json): Option<bool> {
    match (Jcs(body), DecodeJson(signature), DecodeJson(key))
    case (Ok(text), Some(sig), Some(pk)) => env.ed25519(pk, Utf8(text), sig)
    case _ => None
  }

  const REQUIRED: seq<string> := ["subject_public_key", "issued_by_public_key", "subject_role",
                                  "not_before", "not_after", "version", "parent_signature"]

  predicate InWindow(env: Env, cert: Json, now: int) {
    match (env.parseDate(Get(cert, "not_before")), env.parseDate(Get(cert, "not_after")))
    case (Some(nb), Some(na)) => nb <= now <= na
    case _ => false
  }

  function Body(cert: Json): Json {
    Obj(if cert.Obj? then Without(cert.fields, "parent_signature") else [])
  }

  /** The text a parent signs. */
  function SignedText(cert: Json): Result<string, JcsError> {
    Jcs(Body(cert))
  }

  /** The key a certificate is checked against. The root's is its own issuer, one and the same value. */
  datatype Parent = OwnIssuer | Key(key: Json)

  function ParentKey(cert: Json, parent: Parent): Json {
    match parent case OwnIssuer => Issuer(cert) case Key(key) => key
  }

  predicate IssuedBy(cert: Json, parent: Parent) {
    parent.OwnIssuer? || Identical(Issuer(cert), parent.key)
  }

  predicate Complete(cert: Json) {
    forall k :: 0 <= k < |REQUIRED| ==> Get(cert, REQUIRED[k]) != Undefined
  }

  /** What a certificate must satisfy: complete, current, and issued and signed by the parent key. */
  predicate CertHolds(env: Env, cert: Json, parent: Parent, now: int) {
    && Complete(cert)
    && InWindow(env, cert, now)
    && IssuedBy(cert, parent)
    && Signed(env, ParentKey(cert, parent), Body(cert), Get(cert, "parent_signature")) == Some(true)
  }

  /** A comparison that fails is reported with both values in the message. */
  predicate ReportThrows(a: Json, b: Json) {
    !Identical(a, b) && (Throws(a) || Throws(b))
  }

  /** verifyCert throws: in Date.parse, or in the message about the issuer. */
  predicate CertThrows(cert: Json, parent: Parent) {
    && Complete(cert)
    && (Throws(Get(cert, "not_before")) || Throws(Get(cert, "not_after"))
        || (parent.Key? && ReportThrows(Issuer(cert), parent.key)))
  }

  datatype CertName = RootCert | LabCert | RuntimeCert

  datatype LabError =
    | NoRecord
    | NoTrustRoot
    | UnsupportedVersion
    | CertParseFailed
    | TrustAnchorMismatch
    | NotSelfSigned
    | MissingField(which: CertName, key: string)
    | OutsideWindow(which: CertName)
    | IssuerMismatch(which: CertName)
    | VerifyThrew(which: CertName)
    | InvalidSignature(which: CertName)
    | SignerMismatch
    | OuterSignatureInvalid

  datatype CertCheck = CertCheck(ok: bool, errors: seq<LabError>)

  predicate Consistent(check: CertCheck) {
    check.ok <==> check.errors == []
  }

  /** The messages about fields that are missing. */
  method MissingFields(cert: Json, which: CertName) returns (errs: seq<LabError>)
    requires !cert.Null?
    ensures errs == [] <==> Complete(cert)
  {
    hide Get;
    errs := [];
    for k := 0 to |REQUIRED|
      invariant errs == [] <==> forall j :: 0 <= j < k ==> Get(cert, REQUIRED[j]) != Undefined
    {
      if Get(cert, REQUIRED[k]) == Undefined {
        errs := errs + [MissingField(which, REQUIRED[k])];
      }
    }
  }

  /**
   verifyCert: errors are collected, and a bad signature is only reported when nothing else is. None stands
   for a rejected promise: only the signature check is guarded.
   */
  method VerifyCert(env: Env, cert: Json, parent: Parent, which: CertName, now: int) returns (r: Option<CertCheck>)
    requires !cert.Null?
    ensures r.None? <==> CertThrows(cert, parent)
    ensures r.Some? ==> (r.value.ok <==> CertHolds(env, cert, parent, now)) && Consistent(r.value)
  {
    var errs := MissingFields(cert, which);
    hide Complete, Get, InWindow, Identical, Issuer, Signed, Body, Throws;
    if |errs| > 0 {
      return Some(CertCheck(false, errs));
    }
    if Throws(Get(cert, "not_before")) || Throws(Get(cert, "not_after")) {
      return None;
    }
    var tempOk := InWindow(env, cert, now);
    if !tempOk {
      errs := errs + [OutsideWindow(which)];
    }
    if !IssuedBy(cert, parent) {
      if Throws(Issuer(cert)) || Throws(parent.key) {
        return None;
      }
      errs := errs + [IssuerMismatch(which)];
    }
    var sigOk := false;
    match Signed(env, ParentKey(cert, parent), Body(cert), Get(cert, "parent_signature")) {
      case None => errs := errs + [VerifyThrew(which)];
      case Some(ok) => sigOk := ok;
    }
    if !sigOk && |errs| == 0 {
      errs := errs + [InvalidSignature(which)];
    }
    r := Some(CertCheck(sigOk && tempOk && |errs| == 0, errs));
  }

  function SignableContent(r: LabRecord): Json {
    Obj([Field("h3_cell", r.h3Cell), Field("epoch", r.epoch), Field("model_version", r.modelVersion),
         Field("input", r.input), Field("model", r.model), Field("output", r.output),
         Field("runtime", r.runtime), Field("record_version", r.recordVersion)])
  }

  function VerifyOuterSignature(env: Env, r: LabRecord): bool {
    Signed(env, r.signerPublicKey, SignableContent(r), r.signatureBytes) == Some(true)
  }

  // ---------------------------------------------------------------------------
  // The verdict
  // ---------------------------------------------------------------------------

  datatype LabVerdict = LabVerdict(ok: bool, outerSignatureOk: bool, chain: seq<CertCheck>, errors: seq<LabError>)

  predicate CertsParse(env: Env, r: LabRecord) {
    env.parse(r.rootCertJson).Some? && env.parse(r.labCertJson).Some? && env.parse(r.runtimeCertJson).Some?
  }

  /** The root certificate is issued by the trust root, and by itself. */
  predicate Anchored(root: Json, trustRoot: Json) {
    Identical(Issuer(root), trustRoot) && Identical(Subject(root), Issuer(root))
  }

  predicate AnchorRuns(root: Json, trustRoot: Json) {
    !root.Null? && !ReportThrows(Issuer(root), trustRoot) && !ReportThrows(Subject(root), Issuer(root))
  }

  predicate LinksHold(env: Env, root: Json, lab: Json, runtime: Json, now: Clock) {
    && CertHolds(env, root, OwnIssuer, now.root)
    && CertHolds(env, lab, Key(Subject(root)), now.lab)
    && CertHolds(env, runtime, Key(Subject(lab)), now.runtime)
  }

  predicate LinkRuns(cert: Json, parent: Parent) {
    !cert.Null? && !CertThrows(cert, parent)
  }

  predicate LinksRun(root: Json, lab: Json, runtime: Json) {
    LinkRuns(root, OwnIssuer) && LinkRuns(lab, Key(Subject(root))) && LinkRuns(runtime, Key(Subject(lab)))
  }

  /** Working on three parsed certificates does not throw: none is null, and values in dates and messages have texts. */
  predicate ChainRuns(rec: LabRecord, trustRoot: Json, root: Json, lab: Json, runtime: Json) {
    && AnchorRuns(root, trustRoot)
    && LinksRun(root, lab, runtime)
    && !ReportThrows(Subject(runtime), rec.signerPublicKey)
  }

  /** The promise is rejected: past the early returns something unguarded throws. */
  predicate Rejects(env: Env, record: Option<LabRecord>, trustRoot: Option<Json>) {
    && record.Some? && trustRoot.Some? && Truthy(trustRoot.value)
    && if record.value.recordVersion != Num("1") then Throws(record.value.recordVersion)
       else CertsParse(env, record.value)
            && !ChainRuns(record.value, trustRoot.value, env.parse(record.value.rootCertJson).value,
                           env.parse(record.value.labCertJson).value, env.parse(record.value.runtimeCertJson).value)
  }

  /** The three-level delegation, read off parsed certificates. */
  predicate ChainHolds(env: Env, rec: LabRecord, trustRoot: Json, root: Json, lab: Json, runtime: Json, now: Clock) {
    && Anchored(root, trustRoot)
    && LinksHold(env, root, lab, runtime, now)
    && Identical(Subject(runtime), rec.signerPublicKey)
    && VerifyOuterSignature(env, rec)
  }

  /** Everything a good record rests on. */
  predicate RecordHolds(env: Env, record: Option<LabRecord>, trustRoot: Option<Json>, now: Clock) {
    && record.Some? && trustRoot.Some? && Truthy(trustRoot.value)
    && record.value.recordVersion == Num("1")
    && CertsParse(env, record.value)
    && var root, lab, runtime := env.parse(record.value.rootCertJson).value,
                                 env.parse(record.value.labCertJson).value,
                                 env.parse(record.value.runtimeCertJson).value;
    && !root.Null? && !lab.Null? && !runtime.Null?
    && ChainHolds(env, record.value, trustRoot.value, root, lab, runtime, now)
  }

  /** Anchor and self-signature of the root certificate. */
  method CheckAnchor(rootCert: Json, trustRoot: Json) returns (r: Option<seq<LabError>>)
    ensures r.Some? <==> AnchorRuns(rootCert, trustRoot)
    ensures r.Some? ==> (r.value == [] <==> Anchored(rootCert, trustRoot))
  {
    hide Identical, Issuer, Subject, Throws;
    if rootCert.Null? {
      return None;
    }
    var errors: seq<LabError> := [];
    if !Identical(Issuer(rootCert), trustRoot) {
      if Throws(Issuer(rootCert)) || Throws(trustRoot) {
        return None;
      }
      errors := errors + [TrustAnchorMismatch];
    }
    if !Identical(Subject(rootCert), Issuer(rootCert)) {
      if Throws(Subject(rootCert)) || Throws(Issuer(rootCert)) {
        return None;
      }
      errors := errors + [NotSelfSigned];
    }
    r := Some(errors);
  }

  predicate Reflects(env: Env, cert: Json, parent: Parent, now: int, check: CertCheck) {
    Consistent(check) && (check.ok <==> CertHolds(env, cert, parent, now))
  }

  /** The three calls of verifyCert, each certificate against its parent. */
  datatype Links = LinkThrew | Links(root: CertCheck, lab: CertCheck, runtime: CertCheck)

  method VerifyLinks(env: Env, rootCert: Json, labCert: Json, runtimeCert: Json, now: Clock) returns (r: Links)
    ensures r.Links? <==> LinksRun(rootCert, labCert, runtimeCert)
    ensures r.Links? ==>
      && Reflects(env, rootCert, OwnIssuer, now.root, r.root)
      && Reflects(env, labCert, Key(Subject(rootCert)), now.lab, r.lab)
      && Reflects(env, runtimeCert, Key(Subject(labCert)), now.runtime, r.runtime)
  {
    hide Subject, Reflects, CertThrows;
    var rootCheck := CheckLink(env, rootCert, OwnIssuer, RootCert, now.root);
    if rootCheck.None? {
      return LinkThrew;
    }
    var labCheck := CheckLink(env, labCert, Key(Subject(rootCert)), LabCert, now.lab);
    if labCheck.None? {
      return LinkThrew;
    }
    var runtimeCheck := CheckLink(env, runtimeCert, Key(Subject(labCert)), RuntimeCert, now.runtime);
    if runtimeCheck.None? {
      return LinkThrew;
    }
    r := Links(rootCheck.value, labCheck.value, runtimeCheck.value);
  }

  /** verifyCert of anything that was parsed: null has no properties to read. */
  method CheckLink(env: Env, cert: Json, parent: Parent, which: CertName, now: int) returns (r: Option<CertCheck>)
    ensures r.Some? <==> LinkRuns(cert, parent)
    ensures r.Some? ==> Reflects(env, cert, parent, now, r.value)
  {
    hide CertThrows, CertHolds, Consistent;
    if cert.Null? {
      return None;
    }
    r := VerifyCert(env, cert, parent, which, now);
  }

  predicate AllOk(chain: seq<CertCheck>) {
    forall k :: 0 <= k < |chain| ==> chain[k].ok
  }

  /** The checks on parsed certificates, in the order they are written; the first that throws ends it. */
  method VerifyParsed(env: Env, rec: LabRecord, trustRoot: Json, rootCert: Json, labCert: Json, runtimeCert: Json,
                      now: Clock)
      returns (r: Option<LabVerdict>)
    ensures r.Some? <==> ChainRuns(rec, trustRoot, rootCert, labCert, runtimeCert)
    ensures r.Some? ==> Judges(env, rec, Anchored(rootCert, trustRoot), rootCert, labCert, runtimeCert, now, r.value)
  {
    hide Anchored, AnchorRuns, LinksRun, ReportThrows, Judges;
    var anchorErrors := CheckAnchor(rootCert, trustRoot);
    if anchorErrors.None? {
      return None;
    }
    r := VerifyAnchored(env, rec, anchorErrors.value, rootCert, labCert, runtimeCert, now);
  }

  /** The verdict says what holds, and lists an error exactly when it is bad. */
  predicate Judges(env: Env, rec: LabRecord, anchored: bool, root: Json, lab: Json, runtime: Json, now: Clock,
                   v: LabVerdict)
  {
    && (v.ok <==>
          && anchored
          && LinksHold(env, root, lab, runtime, now)
          && Identical(Subject(runtime), rec.signerPublicKey)
          && VerifyOuterSignature(env, rec))
    && (v.ok <==> v.errors == [])
    && |v.chain| == 3
    && (v.outerSignatureOk <==> VerifyOuterSignature(env, rec))
  }

  /** All that follows the checks of the root certificate's own fields. */
  method VerifyAnchored(env: Env, rec: LabRecord, anchorErrors: seq<LabError>, rootCert: Json, labCert: Json,
                        runtimeCert: Json, now: Clock)
      returns (r: Option<LabVerdict>)
    ensures r.Some? <==>
      LinksRun(rootCert, labCert, runtimeCert) && !ReportThrows(Subject(runtimeCert), rec.signerPublicKey)
    ensures r.Some? ==> Judges(env, rec, anchorErrors == [], rootCert, labCert, runtimeCert, now, r.value)
  {
    hide LinksRun, ReportThrows, Identical, Subject, VerifyOuterSignature, Consistent, CertHolds;
    var links := VerifyLinks(env, rootCert, labCert, runtimeCert, now);
    if links.LinkThrew? || ReportThrows(Subject(runtimeCert), rec.signerPublicKey) {
      return None;
    }
    var v := Conclude(anchorErrors, links, Identical(Subject(runtimeCert), rec.signerPublicKey),
                      VerifyOuterSignature(env, rec));
    r := Some(v);
  }

  /** The error list, in the order the checks are written, and the verdict. */
  method Conclude(anchorErrors: seq<LabError>, links: Links, signerMatches: bool, outerOk: bool)
      returns (v: LabVerdict)
    requires links.Links? && Consistent(links.root) && Consistent(links.lab) && Consistent(links.runtime)
    ensures v.ok <==>
      anchorErrors == [] && links.root.ok && links.lab.ok && links.runtime.ok && signerMatches && outerOk
    ensures v.ok <==> v.errors == []
    ensures v.chain == [links.root, links.lab, links.runtime] && v.outerSignatureOk == outerOk
  {
    hide Consistent;
    var chain := [links.root, links.lab, links.runtime];
    var errors := CollectErrors(anchorErrors, chain);
    assert AllOk(chain) <==> chain[0].ok && chain[1].ok && chain[2].ok;
    if !signerMatches {
      errors := errors + [SignerMismatch];
    }
    if !outerOk {
      errors := errors + [OuterSignatureInvalid];
    }
    v := LabVerdict(|errors| == 0 && outerOk && AllOk(chain), outerOk, chain, errors);
  }

  method CollectErrors(before: seq<LabError>, chain: seq<CertCheck>) returns (errors: seq<LabError>)
    requires forall k :: 0 <= k < |chain| ==> Consistent(chain[k])
    ensures errors == [] <==> before == [] && AllOk(chain)
  {
    errors := before;
    for k := 0 to |chain|
      invariant errors == [] <==> before == [] && forall j :: 0 <= j < k ==> chain[j].ok
    {
      if !chain[k].ok {
        errors := errors + chain[k].errors;
      }
    }
  }

  /** verifyLabRecord; None stands for a rejected promise. */
  method VerifyLabRecord(env: Env, record: Option<LabRecord>, trustRoot: Option<Json>, now: Clock)
      returns (r: Option<LabVerdict>)
    ensures r.None? <==> Rejects(env, record, trustRoot)
    ensures r.Some? ==> (r.value.ok <==> RecordHolds(env, record, trustRoot, now))
    ensures r.Some? ==> (r.value.ok <==> r.value.errors == [])
  {
    if record.None? {
      return Some(LabVerdict(false, false, [], [NoRecord]));
    }
    if trustRoot.None? || !Truthy(trustRoot.value) {
      return Some(LabVerdict(false, false, [], [NoTrustRoot]));
    }
    var rec := record.value;
    if rec.recordVersion != Num("1") {
      return if Throws(rec.recordVersion) then None else Some(LabVerdict(false, false, [], [UnsupportedVersion]));
    }
    if !CertsParse(env, rec) {
      return Some(LabVerdict(false, false, [], [CertParseFailed]));
    }
    r := VerifyParsed(env, rec, trustRoot.value, env.parse(rec.rootCertJson).value, env.parse(rec.labCertJson).value,
                      env.parse(rec.runtimeCertJson).value, now);
  }

  /** A certificate need not be null for that: a date that is an object with a toString field will do. */
  lemma DateWithoutTextRejects(env: Env, r: LabRecord, root: Json, rest: seq<Field>)
    requires r.recordVersion == Num("1") && CertsParse(env, r)
    requires root == Obj([Field("not_before", Obj([Field("toString", Num("0"))]))] + rest)
    requires env.parse(r.rootCertJson).value == root && Complete(root)
    ensures Rejects(env, Some(r), Some(Str("key")))
  {
    var date := Field("toString", Num("0"));
    assert date in [date];
    assert Throws(Get(root, "not_before"));
    assert CertThrows(root, OwnIssuer);
  }

  /** A verified record's signer is reached from the trust root by signatures alone. */
  lemma SignerIsDelegated(env: Env, record: Option<LabRecord>, trustRoot: Option<Json>, now: Clock)
    requires RecordHolds(env, record, trustRoot, now)
    ensures var lab, runtime := env.parse(record.value.labCertJson).value,
                                env.parse(record.value.runtimeCertJson).value;
      && !lab.Null? && !runtime.Null?
      && Signed(env, trustRoot.value, Body(lab), Get(lab, "parent_signature")) == Some(true)
      && Signed(env, Subject(lab), Body(runtime), Get(runtime, "parent_signature")) == Some(true)
      && Subject(runtime) == record.value.signerPublicKey
      && Signed(env, record.value.signerPublicKey, SignableContent(record.value), record.value.signatureBytes)
         == Some(true)
  {
  }

  // ---------------------------------------------------------------------------
  // Whole responses
  // ---------------------------------------------------------------------------

  datatype ResponseVerdict = Malformed | Checked(ok: bool, verdicts: seq<LabVerdict>)

  /** verifyResponse; None when any record's promise is rejected. clocks[i] is when record i is looked at. */
  method VerifyResponse(env: Env, records: Option<seq<Option<LabRecord>>>, trustRoot: Option<Json>, clocks: seq<Clock>)
      returns (r: Option<ResponseVerdict>)
    requires records.Some? ==> |clocks| == |records.value|
    ensures records.None? || trustRoot.None? ==> r == Some(Malformed)
    ensures records.Some? && trustRoot.Some? ==>
      (r.None? <==> exists i :: 0 <= i < |records.value| && Rejects(env, records.value[i], trustRoot))
    ensures records.Some? && trustRoot.Some? && r.Some? ==>
      && r.value.Checked? && |r.value.verdicts| == |records.value|
      && (r.value.ok <==>
            forall i :: 0 <= i < |records.value| ==> RecordHolds(env, records.value[i], trustRoot, clocks[i]))
  {
    if records.None? || trustRoot.None? {
      return Some(Malformed);
    }
    var results := VerifyEach(env, records.value, trustRoot, clocks);
    r := Gather(results);
  }

  /** What is known of one settled promise. */
  predicate Settled(env: Env, record: Option<LabRecord>, trustRoot: Option<Json>, now: Clock, r: Option<LabVerdict>) {
    && (r.None? <==> Rejects(env, record, trustRoot))
    && (r.Some? ==> (r.value.ok <==> RecordHolds(env, record, trustRoot, now)))
  }

  method VerifyEach(env: Env, records: seq<Option<LabRecord>>, trustRoot: Option<Json>, clocks: seq<Clock>)
      returns (results: seq<Option<LabVerdict>>)
    requires |clocks| == |records|
    ensures |results| == |records|
    ensures forall i :: 0 <= i < |records| ==> Settled(env, records[i], trustRoot, clocks[i], results[i])
  {
    results := [];
    for i := 0 to |records|
      invariant |results| == i
      invariant forall j :: 0 <= j < i ==> Settled(env, records[j], trustRoot, clocks[j], results[j])
    {
      var v := VerifyLabRecord(env, records[i], trustRoot, clocks[i]);
      results := results + [v];
    }
  }

  /** Promise.all and every. */
  method Gather(results: seq<Option<LabVerdict>>) returns (r: Option<ResponseVerdict>)
    ensures r.None? <==> exists i :: 0 <= i < |results| && results[i].None?
    ensures r.Some? ==>
      && r.value.Checked? && |r.value.verdicts| == |results|
      && (r.value.ok <==> forall i :: 0 <= i < |results| ==> results[i].Some? && results[i].value.ok)
  {
    var verdicts: seq<LabVerdict> := [];
    for i := 0 to |results|
      invariant |verdicts| == i
      invariant forall j :: 0 <= j < i ==> results[j] == Some(verdicts[j])
    {
      if results[i].None? {
        return None;
      }
      verdicts := verdicts + [results[i].value];
    }
    r := Some(Checked(forall i :: 0 <= i < |verdicts| ==> verdicts[i].ok, verdicts));
  }

  // ---------------------------------------------------------------------------
  // What the outer signature covers
  // ---------------------------------------------------------------------------

  lemma {:induction false} SameSerializes(v: Json, w: Json)
    requires Same(Rfc8785, v, w) && Serializable(Rfc8785, v)
    ensures Serializable(Rfc8785, w)
    decreases v
  {
    match (v, w)
    case (Arr(a), Arr(b)) =>
      forall y | y in b ensures Serializable(Rfc8785, y) {
        var k :| 0 <= k < |b| && b[k] == y;
        SameSerializes(a[k], b[k]);
      }
    case (Obj(f), Obj(g)) =>
      forall y | y in g && y.val != Undefined ensures Serializable(Rfc8785, y.val) {
        var x :| x in f && SameField(Rfc8785, x, y);
        SameSerializes(x.val, y.val);
      }
    case _ =>
  }

  lemma PositionsMakeSame(f: seq<Field>, g: seq<Field>)
    requires |f| == |g| && forall i :: 0 <= i < |f| ==> f[i].key == g[i].key
    requires forall i :: 0 <= i < |f| ==> Same(Rfc8785, f[i].val, g[i].val)
    ensures Same(Rfc8785, Obj(f), Obj(g))
  {
    forall x | x in f && x.val != Undefined ensures exists y :: y in g && SameField(Rfc8785, x, y) {
      var i :| 0 <= i < |f| && f[i] == x;
      assert g[i] in g && SameField(Rfc8785, x, g[i]);
    }
    forall y | y in g && y.val != Undefined ensures exists x :: x in f && SameField(Rfc8785, x, y) {
      var i :| 0 <= i < |g| && g[i] == y;
      assert f[i] in f && SameField(Rfc8785, f[i], y);
    }
  }

  lemma SameKeySamePlace(f: seq<Field>, x: Field, i: nat)
    requires DistinctKeys(f) && x in f && i < |f| && x.key == f[i].key
    ensures x == f[i]
  {
  }

  lemma SameAtPosition(f: seq<Field>, g: seq<Field>, i: nat)
    requires |f| == |g| && DistinctKeys(f) && DistinctKeys(g) && forall k :: 0 <= k < |f| ==> f[k].key == g[k].key
    requires Same(Rfc8785, Obj(f), Obj(g)) && i < |f|
    ensures Same(Rfc8785, f[i].val, g[i].val)
  {
    assert f[i] in f && g[i] in g;
    if f[i].val != Undefined {
      var y := Match(Rfc8785, f, g, f[i]);
      SameKeySamePlace(g, y, i);
    } else if g[i].val != Undefined {
      var x := MatchBack(Rfc8785, f, g, g[i]);
      SameKeySamePlace(f, x, i);
    }
  }

  lemma SameByPosition(f: seq<Field>, g: seq<Field>)
    requires |f| == |g| && DistinctKeys(f) && DistinctKeys(g) && forall k :: 0 <= k < |f| ==> f[k].key == g[k].key
    ensures Same(Rfc8785, Obj(f), Obj(g)) <==> forall i :: 0 <= i < |f| ==> Same(Rfc8785, f[i].val, g[i].val)
  {
    if forall i :: 0 <= i < |f| ==> Same(Rfc8785, f[i].val, g[i].val) {
      PositionsMakeSame(f, g);
    } else if Same(Rfc8785, Obj(f), Obj(g)) {
      forall i | 0 <= i < |f| ensures Same(Rfc8785, f[i].val, g[i].val) {
        SameAtPosition(f, g, i);
      }
    }
  }

  /** Every signable field holds a JavaScript value. */
  predicate SignableValues(r: LabRecord) {
    && JsValue(r.h3Cell) && JsValue(r.epoch) && JsValue(r.modelVersion) && JsValue(r.input)
    && JsValue(r.model) && JsValue(r.output) && JsValue(r.runtime) && JsValue(r.recordVersion)
  }

  /** Two records say the same thing: their eight signable fields are the same values. */
  ghost predicate SameStatement(r: LabRecord, s: LabRecord) {
    && Same(Rfc8785, r.h3Cell, s.h3Cell) && Same(Rfc8785, r.epoch, s.epoch)
    && Same(Rfc8785, r.modelVersion, s.modelVersion) && Same(Rfc8785, r.input, s.input)
    && Same(Rfc8785, r.model, s.model) && Same(Rfc8785, r.output, s.output)
    && Same(Rfc8785, r.runtime, s.runtime) && Same(Rfc8785, r.recordVersion, s.recordVersion)
  }

  lemma SignableKeysDistinct(r: LabRecord)
    ensures DistinctKeys(SignableContent(r).fields) && |SignableContent(r).fields| == 8
  {
    var f := SignableContent(r).fields;
    assert |f[0].key| == 7 && |f[1].key| == 5 && |f[2].key| == 13 && |f[3].key| == 5
        && |f[4].key| == 5 && |f[5].key| == 6 && |f[6].key| == 7 && |f[7].key| == 14;
    assert f[0].key[0] == 'h' && f[6].key[0] == 'r' && f[1].key[0] == 'e' && f[3].key[0] == 'i' && f[4].key[0] == 'm';
  }

  lemma SignableIsJsValue(r: LabRecord)
    requires SignableValues(r)
    ensures JsValue(SignableContent(r))
  {
    SignableKeysDistinct(r);
    var f := SignableContent(r).fields;
    forall x | x in f ensures JsValue(x.val) {
      var i :| 0 <= i < 8 && f[i] == x;
    }
  }

  lemma SignableContentsAgree(r: LabRecord, s: LabRecord)
    ensures Same(Rfc8785, SignableContent(r), SignableContent(s)) <==> SameStatement(r, s)
  {
    hide Same;
    SignableKeysDistinct(r);
    SignableKeysDistinct(s);
    var f, g := SignableContent(r).fields, SignableContent(s).fields;
    SameByPosition(f, g);
    EightSame(f, g);
  }

  lemma EightSame(f: seq<Field>, g: seq<Field>)
    requires |f| == |g| == 8
    ensures (forall i :: 0 <= i < 8 ==> Same(Rfc8785, f[i].val, g[i].val)) <==>
      && Same(Rfc8785, f[0].val, g[0].val) && Same(Rfc8785, f[1].val, g[1].val)
      && Same(Rfc8785, f[2].val, g[2].val) && Same(Rfc8785, f[3].val, g[3].val)
      && Same(Rfc8785, f[4].val, g[4].val) && Same(Rfc8785, f[5].val, g[5].val)
      && Same(Rfc8785, f[6].val, g[6].val) && Same(Rfc8785, f[7].val, g[7].val)
  {
    hide Same;
  }

  /** One signature, one statement: otherwise the key's owner's signature stands for two different messages. */
  lemma OuterSignatureBindsStatement(env: Env, r: LabRecord, s: LabRecord)
    requires SignableValues(r) && SignableValues(s)
    requires r.signerPublicKey == s.signerPublicKey && r.signatureBytes == s.signatureBytes
    requires VerifyOuterSignature(env, r) && VerifyOuterSignature(env, s)
    ensures
      || SameStatement(r, s)
      || var pk, sig := DecodeJson(r.signerPublicKey).value, DecodeJson(r.signatureBytes).value;
         var m, m' := Utf8(Jcs(SignableContent(r)).value), Utf8(Jcs(SignableContent(s)).value);
         m != m' && env.ed25519(pk, m, sig) == Some(true) && env.ed25519(pk, m', sig) == Some(true)
  {
    SignableIsJsValue(r);
    SignableIsJsValue(s);
    SignableContentsAgree(r, s);
    JcsIdentifies(SignableContent(r), SignableContent(s));
    if Utf8(Jcs(SignableContent(r)).value) == Utf8(Jcs(SignableContent(s)).value) {
      Utf8Injective(Jcs(SignableContent(r)).value, Jcs(SignableContent(s)).value);
    }
  }

  /** Conversely the statement is all that is covered: no other field of the record touches the verdict. */
  lemma OuterSignatureCoversStatementOnly(env: Env, r: LabRecord, s: LabRecord)
    requires SignableValues(r) && SignableValues(s) && SameStatement(r, s)
    requires r.signerPublicKey == s.signerPublicKey && r.signatureBytes == s.signatureBytes
    requires VerifyOuterSignature(env, r)
    ensures VerifyOuterSignature(env, s)
  {
    SignableIsJsValue(r);
    SignableIsJsValue(s);
    SignableContentsAgree(r, s);
    JcsIsCanonical(SignableContent(r));
    SameSerializes(SignableContent(r), SignableContent(s));
    JcsIsCanonical(SignableContent(s));
    JcsIdentifies(SignableContent(r), SignableContent(s));
  }
}
