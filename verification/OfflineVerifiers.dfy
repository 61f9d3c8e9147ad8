/**
 The browser verifier and the TypeScript SDK verifier, on bundles as they travel. Strings are those of
 JavaScript: sequences of UTF-16 code units, which length and slice count.
 */
module OfflineVerifiers {
  import opened Bytes
  import opened Text
  import Json
  import opened Merkle
  import opened EpochTree
  import opened Provenance

  type Units = seq<int>

  // ---------------------------------------------------------------------------
  // Hex
  // ---------------------------------------------------------------------------

  function HexValue(unit: int): Option<nat> {
    if 0 <= unit < 0x80 then Json.HexVal(unit as char) else None
  }

  /** White space as ECMAScript defines it, which parseInt passes over. */
  predicate JsSpace(n: int) {
    9 <= n <= 13 || n == 32 || n == 160 || n == 0x1680 || 0x2000 <= n <= 0x200A || n == 0x2028 || n == 0x2029
    || n == 0x202F || n == 0x205F || n == 0x3000 || n == 0xFEFF
  }

  const PLUS := '+' as int
  const MINUS := '-' as int
  const ZERO := '0' as int
  const LOWER_X := 'x' as int

  /** parseInt(c0 c1, 16) stored into a Uint8Array: NaN becomes 0, a negative number wraps. */
  function ByteOf(c0: int, c1: int): Byte {
    match (HexValue(c0), HexValue(c1))
    case (Some(a), Some(b)) => if a < 16 && b < 16 then 16 * a + b else 0
    case (Some(a), None) => if a < 16 then a else 0
    case (None, Some(b)) =>
      if b >= 16 then 0
      else if c0 == PLUS || JsSpace(c0) then b
      else if c0 == MINUS then (256 - b) % 256
      else 0
    case (None, None) => 0
  }

  /** bytesToHex, and hex::encode on the server. */
  function Hex(b: Bytes): string {
    if b == [] then "" else [Json.HexDigit(b[0] / 16), Json.HexDigit(b[0] % 16)] + Hex(b[1..])
  }

  function WithoutPrefix(hex: Units): Units {
    if [ZERO, LOWER_X] <= hex then hex[2..] else hex
  }

  function Decoded(clean: Units): Bytes {
    if |clean| < 2 then [] else [ByteOf(clean[0], clean[1])] + Decoded(clean[2..])
  }

  /** What hexToBytes returns; it throws on an odd number of code units. */
  function Unhex(hex: Units): Option<Bytes> {
    var clean := WithoutPrefix(hex);
    if |clean| % 2 != 0 then None else Some(Decoded(clean))
  }

  lemma {:induction false} DecodedAt(clean: Units, i: nat)
    requires 2 * i + 1 < |clean|
    ensures i < |Decoded(clean)| && Decoded(clean)[i] == ByteOf(clean[2 * i], clean[2 * i + 1])
  {
    if i == 0 {
    } else {
      DecodedAt(clean[2..], i - 1);
    }
  }

  lemma {:induction false} DecodedLength(clean: Units)
    ensures |Decoded(clean)| == |clean| / 2
  {
    if |clean| < 2 {
    } else {
      DecodedLength(clean[2..]);
    }
  }

  method HexToBytes(hex: Units) returns (r: Option<Bytes>)
    ensures r == Unhex(hex)
  {
    var clean := if [ZERO, LOWER_X] <= hex then hex[2..] else hex;
    if |clean| % 2 != 0 {
      return None;
    }
    var out := new Byte[|clean| / 2];
    DecodedLength(clean);
    for i := 0 to out.Length
      invariant forall k :: 0 <= k < i ==> out[k] == Decoded(clean)[k]
    {
      DecodedAt(clean, i);
      out[i] := ByteOf(clean[2 * i], clean[2 * i + 1]);
    }
    assert out[..] == Decoded(clean);
    r := Some(out[..]);
  }

  lemma HexPair(x: Byte, rest: string)
    ensures var t := [Json.HexDigit(x / 16), Json.HexDigit(x % 16)] + rest;
      Utf16(t) == [Json.HexDigit(x / 16) as int, Json.HexDigit(x % 16) as int] + Utf16(rest)
    ensures ByteOf(Json.HexDigit(x / 16) as int, Json.HexDigit(x % 16) as int) == x
  {
    var t := [Json.HexDigit(x / 16), Json.HexDigit(x % 16)] + rest;
    assert t[1..] == [Json.HexDigit(x % 16)] + rest && t[1..][1..] == rest;
    Json.HexInverse(x / 16);
    Json.HexInverse(x % 16);
  }

  lemma {:induction false} DecodedHex(b: Bytes)
    ensures |Utf16(Hex(b))| == 2 * |b| && Decoded(Utf16(Hex(b))) == b
    ensures |b| > 0 ==> Utf16(Hex(b))[1] != LOWER_X
  {
    if b == [] {
    } else {
      DecodedHex(b[1..]);
      HexPair(b[0], Hex(b[1..]));
      assert Utf16(Hex(b))[2..] == Utf16(Hex(b[1..]));
    }
  }

  /** Hex encoding survives every decoder. */
  lemma UnhexHex(b: Bytes)
    ensures Unhex(Utf16(Hex(b))) == Some(b)
  {
    DecodedHex(b);
    assert !([ZERO, LOWER_X] <= Utf16(Hex(b)));
  }

  predicate LowerHex(unit: int) {
    48 <= unit <= 57 || 97 <= unit <= 102
  }

  lemma LowerHexBack(c0: int, c1: int)
    requires LowerHex(c0) && LowerHex(c1)
    ensures var x := ByteOf(c0, c1);
      Json.HexDigit(x / 16) as int == c0 && Json.HexDigit(x % 16) as int == c1
  {
  }

  lemma HexDigitIsLower(n: nat)
    requires n < 16
    ensures LowerHex(Json.HexDigit(n) as int)
  {
  }

  lemma {:induction false} HexIsLower(b: Bytes)
    ensures |Utf16(Hex(b))| == 2 * |b| && forall k :: 0 <= k < 2 * |b| ==> LowerHex(Utf16(Hex(b))[k])
  {
    if b == [] {
    } else {
      HexIsLower(b[1..]);
      HexPair(b[0], Hex(b[1..]));
      HexDigitIsLower(b[0] / 16);
      HexDigitIsLower(b[0] % 16);
    }
  }

  lemma {:induction false} HexOfDecoded(t: Units)
    requires |t| % 2 == 0 && forall k :: 0 <= k < |t| ==> LowerHex(t[k])
    ensures Utf16(Hex(Decoded(t))) == t
    decreases |t|
  {
    if t == [] {
    } else {
      var x, rest := ByteOf(t[0], t[1]), t[2..];
      HexOfDecoded(rest);
      LowerHexBack(t[0], t[1]);
      HexPair(x, Hex(Decoded(rest)));
      assert Decoded(t)[1..] == Decoded(rest);
      assert t == [t[0], t[1]] + rest;
    }
  }

  /**
   Which texts are the hex of what they decode to: an even number of lower-case digits and nothing else. Every
   other text the decoder takes is another spelling of the same bytes.
   */
  lemma HexUnhex(t: Units)
    ensures Unhex(t).Some? && Utf16(Hex(Unhex(t).value)) == t
       <==> |t| % 2 == 0 && forall k :: 0 <= k < |t| ==> LowerHex(t[k])
  {
    if |t| % 2 == 0 && forall k :: 0 <= k < |t| ==> LowerHex(t[k]) {
      assert !([ZERO, LOWER_X] <= t) by {
        assert |t| > 1 ==> LowerHex(t[1]);
      }
      HexOfDecoded(t);
    } else if Unhex(t).Some? {
      HexIsLower(Unhex(t).value);
    }
  }

  /** Lengths are counted in code units: a character above U+FFFF is a pair of digits that spell no number. */
  lemma CharacterAboveBmpIsAByte()
    ensures Unhex(Utf16("\U{1F600}")) == Some([0])
    ensures Unhex(Utf16("0\U{1F600}")) == None
  {
    var e := "\U{1F600}";
    assert e[1..] == "" && ("0" + e)[1..] == e;
    var u := Utf16(e);
    assert u == [0xD83D, 0xDE00] && u[2..] == [];
    assert ByteOf(u[0], u[1]) == 0;
    assert u[0] != ZERO && WithoutPrefix(u) == u;
    assert Decoded(u[2..]) == [];
    assert Decoded(u) == [0];
    assert |u| % 2 == 0 && Unhex(u) == Some(Decoded(u));
    assert Utf16("0" + e) == [ZERO] + u;
  }

  // ---------------------------------------------------------------------------
  // Folding and comparing
  // ---------------------------------------------------------------------------

  function ByteNodeHash(h: HashFn): PairHash<Bytes> {
    (l: Bytes, r: Bytes) => h(l + r)
  }

  /** On 32-byte pieces the JavaScript folds are the Rust fold. */
  lemma {:induction false} FoldsAgree(h: HashFn, leaf: Digest, index: nat, proof: seq<Digest>)
    ensures Fold<Bytes>(ByteNodeHash(h), leaf, index, proof) == Fold<Digest>(NodeHash(h), leaf, index, proof)
    decreases |proof|
  {
    if proof == [] {
    } else {
      FoldsAgree(h, Join<Digest>(NodeHash(h), leaf, proof[0], index), index / 2, proof[1..]);
    }
  }

  // ---------------------------------------------------------------------------
  // Indices
  // ---------------------------------------------------------------------------

  /** x % 2 in JavaScript: the remainder has the sign of x. */
  function Rem2(x: real): real {
    if x >= 0.0 then x - 2.0 * (x / 2.0).Floor as real else -(-x - 2.0 * (-x / 2.0).Floor as real)
  }

  /** Math.floor(x / 2). */
  function Half(x: real): real {
    (x / 2.0).Floor as real
  }

  predicate Natural(x: real) {
    x >= 0.0 && x == x.Floor as real
  }

  /**
   The natural number whose bits the folds see in a leaf index, which JSON lets be any number. A negative one
   counts as 0, and a fraction loses the lowest bit of its whole part.
   */
  function IndexOf(x: real): nat {
    if x < 0.0 then 0 else if Natural(x) then x.Floor else x.Floor / 2 * 2
  }

  lemma FloorOfHalf(x: real)
    requires x >= 0.0
    ensures (x / 2.0).Floor == x.Floor / 2
  {
    var n := x.Floor;
    assert n as real <= x < n as real + 1.0;
    assert (n / 2) as real <= x / 2.0 < (n / 2) as real + 1.0 by {
      assert 2 * (n / 2) <= n <= 2 * (n / 2) + 1;
      assert (2 * (n / 2)) as real == 2.0 * (n / 2) as real;
    }
  }

  lemma IndexStep(x: real)
    ensures Rem2(x) == 1.0 <==> IndexOf(x) % 2 == 1
    ensures IndexOf(Half(x)) == IndexOf(x) / 2
  {
    if x < 0.0 {
      assert x / 2.0 < 0.0;
      FloorOfHalf(-x);
      RemainderRange(-x);
    } else {
      FloorOfHalf(x);
      RemainderOfNatural(x);
      assert Natural(Half(x)) && Half(x).Floor == x.Floor / 2;
    }
  }

  lemma RemainderRange(x: real)
    requires x >= 0.0
    ensures Rem2(x) >= 0.0
  {
    FloorOfHalf(x);
    assert 2.0 * (x / 2.0).Floor as real <= x;
  }

  lemma RemainderOfNatural(x: real)
    requires x >= 0.0
    ensures Rem2(x) == 1.0 <==> Natural(x) && x.Floor % 2 == 1
  {
    FloorOfHalf(x);
    var n, k := x.Floor, x.Floor / 2;
    assert Rem2(x) == x - 2.0 * k as real;
    if Rem2(x) == 1.0 {
      assert x == (2 * k + 1) as real;
    }
    if Natural(x) && n % 2 == 1 {
      assert n == 2 * k + 1;
    }
  }

  /** An index that is no natural number passes for one: -1 and 0.5 fold like 0. */
  lemma IndicesThatFoldAlike()
    ensures IndexOf(-1.0) == 0 && IndexOf(0.5) == 0 && IndexOf(3.5) == 2
  {
  }

  /** demo/verify.js. */
  method ReconstructRoot(h: HashFn, leaf: Bytes, siblings: seq<Bytes>, leafIdx: real) returns (node: Bytes)
    ensures node == Fold(ByteNodeHash(h), leaf, IndexOf(leafIdx), siblings)
  {
    node := leaf;
    var idx := leafIdx;
    for k := 0 to |siblings|
      invariant Fold(ByteNodeHash(h), node, IndexOf(idx), siblings[k..])
             == Fold(ByteNodeHash(h), leaf, IndexOf(leafIdx), siblings)
    {
      IndexStep(idx);
      var sib := siblings[k];
      assert siblings[k..][1..] == siblings[k + 1..];
      var combined := if Rem2(idx) == 1.0 then sib + node else node + sib;
      node := h(combined);
      idx := Half(idx);
    }
  }

  /**
   scripts/clients/typescript/client.ts. counts records its layer counter at the start of every turn and at
   the end: the width of the builder's layer, whatever it is used for, which is nothing.
   */
  method ReconstructRootSdk(h: HashFn, leaf: Bytes, siblings: seq<Bytes>, leafIndex: real, leafCount: nat)
      returns (node: Bytes, ghost counts: seq<nat>)
    ensures node == Fold(ByteNodeHash(h), leaf, IndexOf(leafIndex), siblings)
    ensures CountsWidths(counts, leafCount, |siblings|)
  {
    node := leaf;
    var idx, lenAtLayer := leafIndex, leafCount;
    counts := [lenAtLayer];
    for k := 0 to |siblings|
      invariant Fold(ByteNodeHash(h), node, IndexOf(idx), siblings[k..])
             == Fold(ByteNodeHash(h), leaf, IndexOf(leafIndex), siblings)
      invariant CountsWidths(counts, leafCount, k) && lenAtLayer == counts[k]
    {
      var sib := siblings[k];
      assert siblings[k..][1..] == siblings[k + 1..];
      WidthStep(leafCount, k);
      IndexStep(idx);
      var isRight := Rem2(idx) == 1.0;
      var combined := if isRight then sib + node else node + sib;
      node := h(combined);
      idx := Half(idx);
      lenAtLayer := (lenAtLayer + 1) / 2;
      counts := counts + [lenAtLayer];
    }
  }

  /** Bit by bit: a ^ b and a | b of two natural numbers. */
  function Xor(a: nat, b: nat): nat {
    if a == 0 && b == 0 then 0 else 2 * Xor(a / 2, b / 2) + if a % 2 == b % 2 then 0 else 1
  }

  function Or(a: nat, b: nat): nat {
    if a == 0 && b == 0 then 0 else 2 * Or(a / 2, b / 2) + if a % 2 + b % 2 == 0 then 0 else 1
  }

  lemma {:induction false} XorIsZero(a: nat, b: nat)
    ensures Xor(a, b) == 0 <==> a == b
  {
    if a == 0 && b == 0 {
    } else {
      XorIsZero(a / 2, b / 2);
    }
  }

  lemma {:induction false} OrIsZero(a: nat, b: nat)
    ensures Or(a, b) == 0 <==> a == 0 && b == 0
  {
    if a == 0 && b == 0 {
    } else {
      OrIsZero(a / 2, b / 2);
    }
  }

  /** The accumulated difference is zero exactly for equal arrays. */
  method BytesEqual(a: Bytes, b: Bytes) returns (equal: bool)
    ensures equal <==> a == b
  {
    if |a| != |b| {
      return false;
    }
    var diff: nat := 0;
    for i := 0 to |a|
      invariant diff == 0 <==> a[..i] == b[..i]
    {
      XorIsZero(a[i], b[i]);
      OrIsZero(diff, Xor(a[i], b[i]));
      assert a[..i + 1] == a[..i] + [a[i]] && b[..i + 1] == b[..i] + [b[i]];
      diff := Or(diff, Xor(a[i], b[i]));
    }
    assert a[..|a|] == a && b[..|b|] == b;
    equal := diff == 0;
  }

  // ---------------------------------------------------------------------------
  // Verdicts
  // ---------------------------------------------------------------------------

  /** ed25519.verify of the JavaScript library, with the key, the message and the signature as arguments.
      None when it throws, as on a key or a signature of the wrong length. */
  type JsVerifyFn = (Bytes, Bytes, Bytes) -> Option<bool>

  /** The library accepts what Ed25519 accepts. */
  ghost predicate Implements(js: JsVerifyFn, ed25519: VerifyFn) {
    forall key, message, signature :: js(key, message, signature) == Some(true) <==> ed25519(key, message, signature)
  }

  /** The parts of a JSON bundle the verifiers look at. */
  datatype WireBundle = WireBundle(
    signature: Units, identityPk: Units, contentHash: Units,
    merkleProof: seq<Units>, leafIndex: real, merkleRoot: Units, cellCount: nat)

  function HexAll(proof: seq<Bytes>): seq<Units> {
    if proof == [] then [] else [Utf16(Hex(proof[0]))] + HexAll(proof[1..])
  }

  function UnhexAll(proof: seq<Units>): Option<seq<Bytes>> {
    if proof == [] then Some([])
    else
      match (Unhex(proof[0]), UnhexAll(proof[1..]))
      case (Some(b), Some(rest)) => Some([b] + rest)
      case _ => None
  }

  /** The bundle as the server serialises it. */
  function OnTheWire(b: Bundle): WireBundle {
    WireBundle(Utf16(Hex(b.cell.signature)), Utf16(Hex(b.cell.identityPk)), Utf16(Hex(b.cell.contentHash)),
               HexAll(b.proof), b.leafIndex as real, Utf16(Hex(b.epoch.merkleRoot)), b.epoch.cellCount)
  }

  /** Whether the writer's signature holds; None when decoding or the library throws. */
  function SignatureCheck(js: JsVerifyFn, p: WireBundle): Option<bool> {
    match (Unhex(p.signature), Unhex(p.identityPk), Unhex(p.contentHash))
    case (Some(sig), Some(pk), Some(ch)) => js(pk, ch, sig)
    case _ => None
  }

  /** Whether the path leads to the root; None when decoding throws. */
  function RootCheck(h: HashFn, p: WireBundle): Option<bool> {
    match (Unhex(p.contentHash), UnhexAll(p.merkleProof), Unhex(p.merkleRoot))
    case (Some(ch), Some(proof), Some(root)) => Some(Fold(ByteNodeHash(h), ch, IndexOf(p.leafIndex), proof) == root)
    case _ => None
  }

  method UnhexProof(proof: seq<Units>) returns (r: Option<seq<Bytes>>)
    ensures r == UnhexAll(proof)
  {
    var out: seq<Bytes> := [];
    for k := 0 to |proof|
      invariant |out| == k && forall j :: 0 <= j < k ==> Unhex(proof[j]) == Some(out[j])
    {
      var b := HexToBytes(proof[k]);
      if b.None? {
        UnhexAllFails(proof, k);
        return None;
      }
      out := out + [b.value];
    }
    UnhexAllSucceeds(proof, out);
    r := Some(out);
  }

  lemma {:induction false} UnhexAllSucceeds(proof: seq<Units>, out: seq<Bytes>)
    requires |out| == |proof| && forall j :: 0 <= j < |proof| ==> Unhex(proof[j]) == Some(out[j])
    ensures UnhexAll(proof) == Some(out)
  {
    if proof == [] {
    } else {
      UnhexAllSucceeds(proof[1..], out[1..]);
      assert out == [out[0]] + out[1..];
    }
  }

  lemma {:induction false} UnhexAllFails(proof: seq<Units>, k: nat)
    requires k < |proof| && Unhex(proof[k]) == None
    ensures UnhexAll(proof) == None
  {
    if k == 0 {
    } else {
      UnhexAllFails(proof[1..], k - 1);
    }
  }

  datatype BrowserVerdict = BrowserVerdict(ok: bool, sigOk: bool, rootOk: bool)

  const REJECTED := BrowserVerdict(false, false, false)

  /** verifyProvenance: any exception on the way rejects the whole bundle, flags included. */
  method VerifyProvenance(h: HashFn, js: JsVerifyFn, p: WireBundle) returns (v: BrowserVerdict)
    ensures SignatureCheck(js, p).None? || RootCheck(h, p).None? ==> v == REJECTED
    ensures SignatureCheck(js, p).Some? && RootCheck(h, p).Some? ==>
      v.sigOk == SignatureCheck(js, p).value && v.rootOk == RootCheck(h, p).value
    ensures v.ok <==> v.sigOk && v.rootOk
  {
    var sig := HexToBytes(p.signature);
    var pk := HexToBytes(p.identityPk);
    var ch := HexToBytes(p.contentHash);
    if sig.None? || pk.None? || ch.None? {
      return REJECTED;
    }
    var sigOk := js(pk.value, ch.value, sig.value);
    if sigOk.None? {
      return REJECTED;
    }
    var siblings := UnhexProof(p.merkleProof);
    if siblings.None? {
      return REJECTED;
    }
    var reconstructed := ReconstructRoot(h, ch.value, siblings.value, p.leafIndex);
    var root := HexToBytes(p.merkleRoot);
    if root.None? {
      return REJECTED;
    }
    var rootOk := BytesEqual(reconstructed, root.value);
    v := BrowserVerdict(sigOk.value && rootOk, sigOk.value, rootOk);
  }

  /**
   verifyProofLocally. None stands for an exception, which this verifier does not catch; a signature that
   does not hold is answered before the proof is looked at.
   */
  method VerifyProofLocally(h: HashFn, js: JsVerifyFn, p: WireBundle) returns (ok: Option<bool>)
    ensures ok == Some(true) <==> SignatureCheck(js, p) == Some(true) && RootCheck(h, p) == Some(true)
    ensures ok == None <==>
      SignatureCheck(js, p) == None || (SignatureCheck(js, p) == Some(true) && RootCheck(h, p) == None)
  {
    var sig := HexToBytes(p.signature);
    var pk := HexToBytes(p.identityPk);
    var hash := HexToBytes(p.contentHash);
    if sig.None? || pk.None? || hash.None? {
      return None;
    }
    var sigOk := js(pk.value, hash.value, sig.value);
    if sigOk != Some(true) {
      return sigOk;
    }
    var siblings := UnhexProof(p.merkleProof);
    if siblings.None? {
      return None;
    }
    var reconstructed;
    ghost var counts;
    reconstructed, counts := ReconstructRootSdk(h, hash.value, siblings.value, p.leafIndex, p.cellCount);
    var root := HexToBytes(p.merkleRoot);
    if root.None? {
      return None;
    }
    var equal := BytesEqual(reconstructed, root.value);
    ok := Some(equal);
  }

  lemma {:induction false} UnhexAllHexAll(proof: seq<Bytes>)
    ensures UnhexAll(HexAll(proof)) == Some(proof)
  {
    if proof == [] {
    } else {
      UnhexHex(proof[0]);
      UnhexAllHexAll(proof[1..]);
      assert HexAll(proof)[1..] == HexAll(proof[1..]);
      assert proof == [proof[0]] + proof[1..];
    }
  }

  /** Over the wire both verifiers decide exactly what a verdict on the bundle is owed. */
  lemma WireVerdict(h: HashFn, js: JsVerifyFn, ed25519: VerifyFn, b: Bundle)
    requires Implements(js, ed25519)
    ensures SignatureCheck(js, OnTheWire(b)) == Some(true) && RootCheck(h, OnTheWire(b)) == Some(true)
       <==> Accepted(h, ed25519, b)
    ensures RootCheck(h, OnTheWire(b)).Some?
  {
    UnhexHex(b.cell.signature);
    UnhexHex(b.cell.identityPk);
    UnhexHex(b.cell.contentHash);
    UnhexHex(b.epoch.merkleRoot);
    UnhexAllHexAll(b.proof);
    FoldsAgree(h, b.cell.contentHash, b.leafIndex, b.proof);
  }

  // ---------------------------------------------------------------------------
  // What an accepted bundle shows
  // ---------------------------------------------------------------------------

  /** The checks the verifiers leave to their callers: an index of the epoch, a path of its depth, a digest. */
  predicate FullyChecked(p: WireBundle) {
    && Natural(p.leafIndex) && p.leafIndex.Floor < p.cellCount
    && |p.merkleProof| == Depth(p.cellCount)
    && Unhex(p.contentHash).Some? && |Unhex(p.contentHash).value| == 32
  }

  lemma {:induction false} UnhexAllLength(proof: seq<Units>)
    ensures UnhexAll(proof).Some? ==> |UnhexAll(proof).value| == |proof|
  {
    if proof == [] {
    } else {
      UnhexAllLength(proof[1..]);
    }
  }

  lemma {:induction false} HexAllLength(proof: seq<Bytes>)
    ensures |HexAll(proof)| == |proof|
  {
    if proof == [] {
    } else {
      HexAllLength(proof[1..]);
    }
  }

  /** The leaf of the index and its one honest path, in hex. */
  predicate ShowsLeaf(h: HashFn, leaves: seq<Digest>, p: WireBundle)
    requires FullyChecked(p) && |leaves| == p.cellCount
  {
    && Unhex(p.contentHash).value == leaves[p.leafIndex.Floor]
    && UnhexAll(p.merkleProof) == Some(Path(NodeHash(h), leaves, p.leafIndex.Floor))
  }

  /** The bundle contains two byte strings with one hash, at a place that can be computed. */
  predicate BreaksHash(h: HashFn, leaves: seq<Digest>, p: WireBundle)
    requires FullyChecked(p) && |leaves| == p.cellCount
  {
    && UnhexAll(p.merkleProof).Some?
    && (UnhexAllLength(p.merkleProof);
        |leaves| > 1 && Collision(h, WireForgery(h, leaves, Unhex(p.contentHash).value, p.leafIndex.Floor,
                                                 UnhexAll(p.merkleProof).value)))
  }

  /** A fully checked bundle under the root of the leaves passes if and only if it shows its leaf, or it breaks
      the hash. */
  lemma CheckedBundleShowsLeaf(h: HashFn, leaves: seq<Digest>, p: WireBundle)
    requires FullyChecked(p) && |leaves| == p.cellCount && Unhex(p.merkleRoot) == Some(EpochRoot(h, leaves))
    ensures (RootCheck(h, p) == Some(true) <==> ShowsLeaf(h, leaves, p)) || BreaksHash(h, leaves, p)
  {
    UnhexAllLength(p.merkleProof);
    if UnhexAll(p.merkleProof).Some? && !BreaksHash(h, leaves, p) {
      WireAcceptanceIsPosition(h, leaves, Unhex(p.contentHash).value, p.leafIndex.Floor, UnhexAll(p.merkleProof).value);
    }
  }

  /** The bytes hashed when a node is joined with its sibling. */
  function Joined(node: Bytes, sibling: Bytes, index: nat): Bytes {
    if index % 2 == 1 then sibling + node else node + sibling
  }

  lemma SplitAlike(a: Bytes, b: Bytes, l: Bytes, r: Bytes)
    requires a + b == l + r && |a| == |l|
    ensures a == l && b == r
  {
    assert a == (a + b)[..|a|] && l == (l + r)[..|l|];
    assert b == (a + b)[|a|..] && r == (l + r)[|l|..];
  }

  /** The bytes to compare when x and a path of any byte strings are accepted without being honest. */
  function WireForgery(h: HashFn, s: seq<Digest>, x: Bytes, i: nat, proof: seq<Bytes>): (Bytes, Bytes)
    requires |s| > 1 && |proof| == Depth(|s|)
    decreases |s|
  {
    var up, joined := Above(NodeHash(h), s), Joined(x, proof[0], i);
    if |up| == 1
       || (h(joined) == LeafAt(up, i / 2) && proof[1..] == Path(NodeHash(h), up, Position(|up|, i / 2)))
    then (joined, NodeBytes(ChildrenOf(s, Position(|up|, i / 2))))
    else WireForgery(h, up, h(joined), i / 2, proof[1..])
  }

  /** When the joined bytes are the honest 64, a node of 32 bytes and its sibling are the honest ones. */
  lemma HonestJoin(s: seq<Digest>, x: Bytes, sibling: Bytes, i: nat)
    requires |s| > 1 && |x| == 32
    requires Joined(x, sibling, i) == NodeBytes(ChildrenOf(s, Position((|s| + 1) / 2, i / 2)))
    ensures x == LeafAt(s, i) && sibling == Sibling(s, Position(|s|, i))
  {
    JoinIsParent<Digest>((l, r) => l, s, i);
    var c := ChildrenOf(s, Position((|s| + 1) / 2, i / 2));
    if i % 2 == 1 {
      assert |sibling| == 32;
      SplitAlike(sibling, x, c.left, c.right);
    } else {
      SplitAlike(x, sibling, c.left, c.right);
    }
  }

  lemma FoldStep(h: HashFn, s: seq<Digest>, x: Bytes, i: nat, proof: seq<Bytes>)
    requires |s| > 1 && |proof| == Depth(|s|)
    ensures Fold(ByteNodeHash(h), x, i, proof)
         == Fold<Bytes>(ByteNodeHash(h), h(Joined(x, proof[0], i)), i / 2, proof[1..])
    ensures Root(NodeHash(h), s) == Root(NodeHash(h), Above(NodeHash(h), s))
  {
  }

  lemma ForgedAbove(h: HashFn, s: seq<Digest>, x: Bytes, i: nat, proof: seq<Bytes>)
    requires |s| > 1 && |proof| == Depth(|s|) && |Above(NodeHash(h), s)| > 1
    requires var up, joined := Above(NodeHash(h), s), Joined(x, proof[0], i);
      !(h(joined) == LeafAt(up, i / 2) && proof[1..] == Path(NodeHash(h), up, Position(|up|, i / 2)))
    ensures WireForgery(h, s, x, i, proof)
         == WireForgery(h, Above(NodeHash(h), s), h(Joined(x, proof[0], i)), i / 2, proof[1..])
  {
    hide Above, Joined, LeafAt, Path, Position;
  }

  /** Below an honest node and path: the step down is honest, or its two preimages collide. */
  lemma HonestBelow(h: HashFn, s: seq<Digest>, x: Bytes, i: nat, proof: seq<Bytes>)
    requires |s| > 1 && |x| == 32 && |proof| == Depth(|s|)
    requires var up, joined := Above(NodeHash(h), s), Joined(x, proof[0], i);
      h(joined) == LeafAt(up, i / 2) && proof[1..] == Path(NodeHash(h), up, Position(|up|, i / 2))
    ensures
      || (x == LeafAt(s, i) && proof == Path(NodeHash(h), s, Position(|s|, i)))
      || Collision(h, WireForgery(h, s, x, i, proof))
  {
    var up, joined := Above(NodeHash(h), s), Joined(x, proof[0], i);
    var honest := NodeBytes(ChildrenOf(s, Position(|up|, i / 2)));
    ParentBytes(h, s, i);
    if joined == honest {
      HonestJoin(s, x, proof[0], i);
      PathBelow(h, s, i);
      assert proof == [proof[0]] + proof[1..];
    } else {
      hide Joined, NodeBytes, ChildrenOf, LeafAt, Path, Above;
      assert WireForgery(h, s, x, i, proof) == (joined, honest);
    }
  }

  lemma ParentBytes(h: HashFn, s: seq<Digest>, i: nat)
    requires |s| > 1
    ensures var up := Above(NodeHash(h), s);
      h(NodeBytes(ChildrenOf(s, Position(|up|, i / 2)))) == LeafAt(up, i / 2)
  {
  }

  lemma PathBelow(h: HashFn, s: seq<Digest>, i: nat)
    requires |s| > 1
    ensures var up := Above(NodeHash(h), s);
      Path(NodeHash(h), s, Position(|s|, i))
      == [Sibling(s, Position(|s|, i))] + Path(NodeHash(h), up, Position(|up|, i / 2))
  {
    JoinIsParent(NodeHash(h), s, i);
  }

  /** Soundness for byte strings: the siblings' lengths are not asked for, the node's is. */
  lemma {:induction false} AcceptedBytesAreHonest(h: HashFn, s: seq<Digest>, x: Bytes, i: nat, proof: seq<Bytes>)
    requires s != [] && |x| == 32 && |proof| == Depth(|s|)
    requires Fold(ByteNodeHash(h), x, i, proof) == Root(NodeHash(h), s)
    ensures
      || (x == LeafAt(s, i) && proof == Path(NodeHash(h), s, Position(|s|, i)))
      || (|s| > 1 && Collision(h, WireForgery(h, s, x, i, proof)))
    decreases |s|
  {
    if |s| <= 1 {
    } else {
      FoldStep(h, s, x, i, proof);
      var up, joined := Above(NodeHash(h), s), Joined(x, proof[0], i);
      AcceptedBytesAreHonest(h, up, h(joined), i / 2, proof[1..]);
      if h(joined) == LeafAt(up, i / 2) && proof[1..] == Path(NodeHash(h), up, Position(|up|, i / 2)) {
        HonestBelow(h, s, x, i, proof);
      } else {
        ForgedAbove(h, s, x, i, proof);
      }
    }
  }

  /**
   Position soundness of the JavaScript folds, exactly: with a path of the tree's length and a node of 32
   bytes, acceptance means the leaf at the index's position with its honest path, or two explicit byte strings
   collide.
   */
  lemma WireAcceptanceIsPosition(h: HashFn, leaves: seq<Digest>, x: Bytes, i: nat, proof: seq<Bytes>)
    requires leaves != [] && |x| == 32 && |proof| == Depth(|leaves|)
    requires |leaves| > 1 ==> !Collision(h, WireForgery(h, leaves, x, i, proof))
    ensures Fold(ByteNodeHash(h), x, i, proof) == EpochRoot(h, leaves)
       <==> x == LeafAt(leaves, i) && proof == Path(NodeHash(h), leaves, Position(|leaves|, i))
    ensures i < |leaves| ==> LeafAt(leaves, i) == leaves[i] && Position(|leaves|, i) == i
  {
    HonestPathAccepted(NodeHash(h), leaves, i);
    FoldsAgree(h, LeafAt(leaves, i), i, Path(NodeHash(h), leaves, Position(|leaves|, i)));
    if Fold(ByteNodeHash(h), x, i, proof) == EpochRoot(h, leaves) {
      AcceptedBytesAreHonest(h, leaves, x, i, proof);
    }
  }

  /**
   Why the length of the content hash must be checked: two leaves cut in another place join to the same bytes.
   Index and path length are in order, and nothing collides.
   */
  lemma LeavesCutElsewhereAccepted(h: HashFn, l: Digest, r: Digest, cut: nat, p: WireBundle)
    requires cut <= 64
    requires p.contentHash == Utf16(Hex((l + r)[..cut])) && p.merkleProof == [Utf16(Hex((l + r)[cut..]))]
    requires p.leafIndex == 0.0 && p.cellCount == 2 && p.merkleRoot == Utf16(Hex(EpochRoot(h, [l, r])))
    ensures RootCheck(h, p) == Some(true)
    ensures |p.merkleProof| == Depth(p.cellCount) && Unhex(p.contentHash).Some? && |Unhex(p.contentHash).value| == cut
    ensures cut != 32 ==> Unhex(p.contentHash).value != l
  {
    var x, sibling := (l + r)[..cut], (l + r)[cut..];
    UnhexHex(x);
    UnhexHex(sibling);
    UnhexHex(EpochRoot(h, [l, r]));
    OneSibling(sibling);
    RootOfTwo(h, l, r);
    assert x + sibling == l + r;
    FoldOnce(h, x, sibling);
    assert Depth(2) == 1 + Depth(1);
  }

  lemma OneSibling(sibling: Bytes)
    ensures UnhexAll([Utf16(Hex(sibling))]) == Some([sibling])
  {
    var one: seq<Bytes> := [sibling];
    assert one[1..] == [];
    assert HexAll(one) == [Utf16(Hex(sibling))];
    UnhexAllHexAll(one);
  }

  lemma FoldOnce(h: HashFn, x: Bytes, sibling: Bytes)
    ensures Fold(ByteNodeHash(h), x, 0, [sibling]) == h(x + sibling)
  {
    var proof: seq<Bytes> := [sibling];
    assert proof[1..] == [];
  }

  lemma RootOfTwo(h: HashFn, l: Digest, r: Digest)
    ensures EpochRoot(h, [l, r]) == h(l + r)
  {
    var leaves: seq<Digest> := [l, r];
    var up := Above(NodeHash(h), leaves);
    assert |up| == 1 && up[0] == Parent(NodeHash(h), leaves, 0);
    assert ChildrenOf(leaves, 0) == Children(l, r);
    assert Root(NodeHash(h), up) == up[0];
  }
}
