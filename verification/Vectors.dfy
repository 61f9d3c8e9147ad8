/**
 Answers that are known beforehand: the repository's own test cases, test vectors of the standards, and
 constants said in other units. They tie the model to the world where general laws alone would not.
 */
module Vectors {
  import opened Bytes
  import opened Text
  import opened Json
  import opened CanonicalJson
  import opened Merkle
  import opened EpochTree
  import opened EpochTables
  import Base64Url
  import LabVerify
  import OfflineVerifiers
  import Provenance
  import RateLimit
  import Timestamps

  // ---------------------------------------------------------------------------
  // JSON
  // ---------------------------------------------------------------------------

  /** Words and empty things. */
  lemma Words()
    ensures Print(Null) == "null" && Print(Bool(true)) == "true" && Print(Bool(false)) == "false"
    ensures Print(Num("0.97")) == "0.97" && Print(Arr([])) == "[]" && Print(Obj([])) == "{}"
  {
  }

  /** What can be printed at all. */
  lemma PrintableValues(v: Json)
    ensures v.Null? || v.Bool? || v.Str? ==> Printable(v)
    ensures v.Undefined? || v.NonFinite? ==> !Printable(v)
    ensures v.Num? ==> (Printable(v) <==> v.text != "" && forall c :: c in v.text ==> c in "0123456789+-.eE")
  {
    if v.Num? {
      forall k | 0 <= k < |v.text| ensures NumberChar(v.text[k]) <==> v.text[k] in "0123456789+-.eE" {
        NumberCharIs(v.text[k]);
      }
    }
  }

  lemma NumberCharIs(c: char)
    ensures NumberChar(c) <==> c in "0123456789+-.eE"
  {
    var d := "0123456789+-.eE";
    assert d[0] == '0' && d[1] == '1' && d[2] == '2' && d[3] == '3' && d[4] == '4';
    assert d[5] == '5' && d[6] == '6' && d[7] == '7' && d[8] == '8' && d[9] == '9';
    assert d[10] == '+' && d[11] == '-' && d[12] == '.' && d[13] == 'e' && d[14] == 'E';
  }

  /** Arrays keep their order, with commas and nothing else in between. */
  lemma ArrayExample()
    ensures Print(Arr([Num("3"), Num("1"), Num("2")])) == "[3,1,2]"
  {
    var items := [Num("3"), Num("1"), Num("2")];
    assert items[1..] == [Num("1"), Num("2")] && items[1..][1..] == [Num("2")];
    assert PrintItems([Num("2")]) == "2";
    assert PrintItems([Num("1"), Num("2")]) == "1" + "," + "2";
    assert PrintItems(items) == "3" + "," + ("1" + "," + "2");
  }

  lemma ObjectExample()
    ensures Print(Obj([Field("a", Num("1")), Field("b", Num("2"))])) == "{\"a\":1,\"b\":2}"
  {
    hide Print, PrintField, Quote;
    LetterField('a', "1");
    LetterField('b', "2");
    TwoFields(Field("a", Num("1")), Field("b", Num("2")));
  }

  lemma Quoted(c: char)
    requires 0x20 <= c as int && c != '\"' && c != '\\'
    ensures Quote([c]) == "\"" + [c] + "\""
  {
    assert EscapeChar(c) == [c];
    assert [c][1..] == "" && Escape("") == "";
    assert Escape([c]) == [c];
  }

  /** Escapes, by example: the short ones, other control characters, and what needs none. */
  lemma Escapes()
    ensures EscapeChar('\"') == "\\\"" && EscapeChar('\\') == "\\\\" && EscapeChar('\n') == "\\n"
    ensures EscapeChar('\r') == "\\r" && EscapeChar('\t') == "\\t"
    ensures EscapeChar(8 as char) == "\\b" && EscapeChar(12 as char) == "\\f"
    ensures EscapeChar(1 as char) == "\\u0001" && EscapeChar(31 as char) == "\\u001f"
    ensures EscapeChar(127 as char) == [127 as char] && EscapeChar('/') == "/" && EscapeChar('\U{20AC}') == "\U{20AC}"
  {
  }

  /** canonical_json sorts keys and drops nulls, at the top and below. */
  lemma CanonicalSortsAndDrops()
    ensures Canonical(Gns, Obj([Field("b", Num("2")), Field("a", Num("1")), Field("z", Null),
                                Field("nested", Obj([Field("y", Num("2")), Field("x", Num("1"))]))]))
         == "{\"a\":1,\"b\":2,\"nested\":{\"x\":1,\"y\":2}}"
  {
    var inner := [Field("y", Num("2")), Field("x", Num("1"))];
    var f := [Field("b", Num("2")), Field("a", Num("1")), Field("z", Null), Field("nested", Obj(inner))];
    var a, b, x, y := Field("a", Num("1")), Field("b", Num("2")), Field("x", Num("1")), Field("y", Num("2"));
    TwoSorted(y, x);
    assert inner[1..] == [x] && inner[1..][1..] == [];
    assert Normalize(Gns, x.val) == x.val && Normalize(Gns, y.val) == y.val;
    assert NormalizeFields(Gns, inner[1..]) == [x];
    assert NormalizeFields(Gns, inner) == inner;
    var n := Field("nested", Obj([x, y]));
    assert Normalize(Gns, Obj(inner)) == Obj([x, y]);
    assert f[1..] == [a, Field("z", Null), Field("nested", Obj(inner))];
    assert f[1..][1..] == [Field("z", Null), Field("nested", Obj(inner))];
    var f3 := [Field("nested", Obj(inner))];
    assert f[1..][1..][1..] == f3 && f3[1..] == [];
    assert NormalizeFields(Gns, f3) == [n];
    assert NormalizeFields(Gns, f[1..][1..]) == [n];
    assert Normalize(Gns, a.val) == a.val && Normalize(Gns, b.val) == b.val;
    assert NormalizeFields(Gns, f[1..]) == [a, n];
    assert NormalizeFields(Gns, f) == [b, a, n];
    hide NormalizeFields;
    ThreeSorted(b, a, n);
    PrintedExample(a, b, n, x, y);
  }

  lemma TwoFields(x: Field, y: Field)
    ensures Print(Obj([x, y])) == "{" + PrintField(x) + "," + PrintField(y) + "}"
  {
    hide PrintField;
    assert [x, y][1..] == [y];
    assert PrintFields([y]) == PrintField(y);
    assert PrintFields([x, y]) == PrintField(x) + "," + PrintField(y);
  }

  lemma ThreeFields(a: Field, b: Field, n: Field)
    ensures Print(Obj([a, b, n])) == "{" + PrintField(a) + "," + PrintField(b) + "," + PrintField(n) + "}"
  {
    hide PrintField;
    assert [a, b, n][1..] == [b, n] && [b, n][1..] == [n];
    assert PrintFields([n]) == PrintField(n);
    assert PrintFields([b, n]) == PrintField(b) + "," + PrintField(n);
    assert PrintFields([a, b, n]) == PrintField(a) + "," + (PrintField(b) + "," + PrintField(n));
  }

  lemma LetterField(c: char, digit: string)
    requires 'a' <= c <= 'z'
    ensures PrintField(Field([c], Num(digit))) == "\"" + [c] + "\":" + digit
  {
    Quoted(c);
    assert Print(Num(digit)) == digit;
  }

  lemma PrintedExample(a: Field, b: Field, n: Field, x: Field, y: Field)
    requires a == Field("a", Num("1")) && b == Field("b", Num("2"))
    requires x == Field("x", Num("1")) && y == Field("y", Num("2")) && n == Field("nested", Obj([x, y]))
    ensures Print(Obj([a, b, n])) == "{\"a\":1,\"b\":2,\"nested\":{\"x\":1,\"y\":2}}"
  {
    hide Print, PrintField, Quote;
    LetterField('a', "1");
    LetterField('b', "2");
    LetterField('x', "1");
    LetterField('y', "2");
    TwoFields(x, y);
    NestedField(n);
    ThreeFields(a, b, n);
  }

  lemma NestedField(n: Field)
    requires n.key == "nested"
    ensures PrintField(n) == "\"nested\":" + Print(n.val)
  {
    hide Print, Quote;
    QuotedNested();
  }

  lemma {:induction false} Unescaped(s: string)
    requires forall i :: 0 <= i < |s| ==> 'a' <= s[i] <= 'z'
    ensures Escape(s) == s
  {
    if s == "" {
    } else {
      Unescaped(s[1..]);
      assert EscapeChar(s[0]) == [s[0]];
    }
  }

  lemma QuotedNested()
    ensures Quote("nested") == "\"nested\""
  {
    Unescaped("nested");
  }

  lemma FirstLetters(style: Style, a: string, b: string)
    requires a != "" && b != "" && a[0] as int < 0x80 && b[0] as int < 0x80 && a[0] < b[0]
    ensures Before(style, a, b) && !Before(style, b, a)
  {
    assert Utf8(a)[0] == a[0] as int && Utf8(b)[0] == b[0] as int;
    assert Utf16(a)[0] == a[0] as int && Utf16(b)[0] == b[0] as int;
  }

  lemma TwoSorted(y: Field, x: Field)
    requires x.key == "x" && y.key == "y"
    ensures SortFields(Gns, [y, x]) == [x, y]
  {
    FirstLetters(Gns, x.key, y.key);
    assert [y, x][1..] == [x] && [x][1..] == [];
    assert SortFields(Gns, [x]) == [x];
    assert [x][1..] == [] && Insert(Gns, y, []) == [y];
  }

  lemma ThreeSorted(b: Field, a: Field, n: Field)
    requires a.key == "a" && b.key == "b" && n.key == "nested"
    ensures SortFields(Gns, [b, a, n]) == [a, b, n]
  {
    FirstLetters(Gns, a.key, n.key);
    FirstLetters(Gns, b.key, n.key);
    FirstLetters(Gns, a.key, b.key);
    assert [b, a, n][1..] == [a, n] && [a, n][1..] == [n] && [n][1..] == [];
    assert SortFields(Gns, [n]) == [n];
    assert SortFields(Gns, [a, n]) == [a, n];
    assert Insert(Gns, b, [n]) == [b, n];
    assert Insert(Gns, b, [a, n]) == [a] + Insert(Gns, b, [n]);
  }

  /** jcs keeps null and leaves out undefined. */
  lemma JcsKeepsNull()
    ensures LabVerify.Jcs(Obj([Field("a", Null), Field("b", Undefined)])) == Ok("{\"a\":null}")
  {
    var a, b := Field("a", Null), Field("b", Undefined);
    assert a.key[0] != b.key[0];
    hide Print, NormalizeFields, SortFields;
    LabVerify.JcsIsCanonical(Obj([a, b]));
    OneKept(a, b);
  }

  lemma OneKept(a: Field, b: Field)
    requires a == Field("a", Null) && b == Field("b", Undefined)
    ensures Canonical(Rfc8785, Obj([a, b])) == "{\"a\":null}"
  {
    var f := [a, b];
    assert f[1..] == [b] && [b][1..] == [];
    assert NormalizeFields(Rfc8785, [b]) == [];
    assert Normalize(Rfc8785, a.val) == a.val;
    assert NormalizeFields(Rfc8785, f) == [a];
    assert [a][1..] == [] && SortFields(Rfc8785, [a]) == [a];
    hide NormalizeFields, SortFields;
    NullField(a);
  }

  lemma NullField(a: Field)
    requires a == Field("a", Null)
    ensures Print(Obj([a])) == "{\"a\":null}"
  {
    Quoted('a');
    assert Print(Null) == "null";
    assert PrintField(a) == "\"a\":null";
    assert PrintFields([a]) == PrintField(a);
  }

  /** Inside an array undefined is an error, and so is a number that is not finite. */
  lemma JcsErrors()
    ensures LabVerify.Jcs(Arr([Undefined])) == Err(LabVerify.UndefinedValue)
    ensures LabVerify.Jcs(NonFinite) == Err(LabVerify.NonFiniteNumber)
  {
  }

  // ---------------------------------------------------------------------------
  // Encodings
  // ---------------------------------------------------------------------------

  /** One, two, three and four bytes: A, e acute, the euro sign, and a character above U+FFFF. */
  lemma Utf8Examples()
    ensures Utf8Char('A') == [0x41] && Utf8Char('\U{E9}') == [0xC3, 0xA9]
    ensures Utf8Char('\U{20AC}') == [0xE2, 0x82, 0xAC] && Utf8Char('\U{1F600}') == [0xF0, 0x9F, 0x98, 0x80]
    ensures Utf16Char('\U{20AC}') == [0x20AC] && Utf16Char('\U{1F600}') == [0xD83D, 0xDE00]
  {
  }

  /** parseInt on pairs: upper case, one digit only, white space and signs. */
  lemma ParseIntExamples()
    ensures OfflineVerifiers.ByteOf('f' as int, 'F' as int) == 255
    ensures OfflineVerifiers.ByteOf('0' as int, 'a' as int) == 10
    ensures OfflineVerifiers.ByteOf('5' as int, 'g' as int) == 5
    ensures OfflineVerifiers.ByteOf('g' as int, '5' as int) == 0
    ensures OfflineVerifiers.ByteOf(' ' as int, '5' as int) == 5
    ensures OfflineVerifiers.ByteOf('+' as int, 'a' as int) == 10
    ensures OfflineVerifiers.ByteOf('-' as int, '1' as int) == 255
    ensures OfflineVerifiers.ByteOf('0' as int, 'x' as int) == 0
  {
  }

  /** The alphabet of section 5 of RFC 4648. */
  lemma UrlAlphabetIs(n: Base64Url.Sextet)
    ensures var c := Base64Url.UrlOfStd(Base64Url.StdChar(n)) as int;
      && (n < 26 ==> c == 'A' as int + n)
      && (26 <= n < 52 ==> c == 'a' as int + (n - 26))
      && (52 <= n < 62 ==> c == '0' as int + (n - 52))
      && (n == 62 ==> c == '-' as int) && (n == 63 ==> c == '_' as int)
  {
  }

  /** Bits are taken from the front: three bytes and four sextets are one number of 24 bits. */
  lemma GroupIsOneNumber(x: Byte, y: Byte, z: Byte)
    ensures |Base64Url.Sextets([x, y, z])| == 4
    ensures var a: int, b: int, c: int, d: int := Base64Url.Sextets([x, y, z])[0], Base64Url.Sextets([x, y, z])[1],
                                                  Base64Url.Sextets([x, y, z])[2], Base64Url.Sextets([x, y, z])[3];
      ((a * 64 + b) * 64 + c) * 64 + d == 65536 * (x as int) + 256 * (y as int) + z as int
  {
    assert [x, y, z][3..] == [];
    BitsOfGroup(x, y, z);
  }

  lemma BitsOfGroup(x: int, y: int, z: int)
    ensures ((x / 4 * 64 + (x % 4 * 16 + y / 16)) * 64 + (y % 16 * 4 + z / 64)) * 64 + z % 64 == 65536 * x + 256 * y + z
  {
    assert x == 4 * (x / 4) + x % 4;
    assert y == 16 * (y / 16) + y % 16;
    assert z == 64 * (z / 64) + z % 64;
  }

  /** Section 10 of RFC 4648, without padding. */
  lemma Rfc4648Examples()
    ensures Base64Url.Encode([]) == ""
    ensures Base64Url.Encode([0x66]) == "Zg"
    ensures Base64Url.Encode([0x66, 0x6F]) == "Zm8"
    ensures Base64Url.Encode([0x66, 0x6F, 0x6F]) == "Zm9v"
    ensures Base64Url.Encode([0xFB, 0xFF]) == "-_8"
  {
    assert Base64Url.Sextets([0x66]) == [25, 32];
    assert Base64Url.Sextets([0x66, 0x6F]) == [25, 38, 60];
    var none: Bytes := [];
    var foo: Bytes := [0x66, 0x6F, 0x6F];
    assert foo[3..] == none && Base64Url.Sextets(none) == [];
    assert Base64Url.Sextets(foo) == [25, 38, 61, 47];
    assert Base64Url.Sextets([0xFB, 0xFF]) == [62, 63, 60];
  }

  /** What atob passes over: white space and padding. */
  lemma SpacesDecode()
    ensures Base64Url.Decode("Z g ") == Some([0x66])
  {
    hide Base64Url.Decode;
    SpacesGone();
    DecodedGroup("Z g ", "Z g ", "Zg", [25, 32], [0x66]);
  }

  lemma PaddingDecodes()
    ensures Base64Url.Decode("Zg==") == Some([0x66])
  {
    hide Base64Url.Decode;
    Plain("Zg==");
    DecodedGroup("Zg==", "Zg==", "Zg", [25, 32], [0x66]);
  }

  /** And the standard alphabet decodes like the URL one. */
  lemma AlphabetsDecodeAlike(t: string)
    ensures Base64Url.StdOfUrl('-') == '+' && Base64Url.StdOfUrl('_') == '/'
    ensures Base64Url.Decode(Base64Url.ReplaceAll(Base64Url.StdOfUrl, t)) == Base64Url.Decode(t)
  {
    hide Base64Url.Atob;
    var u := Base64Url.ReplaceAll(Base64Url.StdOfUrl, t);
    assert Base64Url.ReplaceAll(Base64Url.StdOfUrl, u) == u;
  }

  /** The white space of the Infra standard: tab, line feed, form feed, carriage return and space. */
  lemma AsciiSpaces(c: char)
    ensures Base64Url.AsciiSpace(c) <==> c in {'\t', '\n', '\U{0C}', '\r', ' '}
  {
  }

  /** A text that is padded up, stripped and looked up step by step. */
  lemma DecodedGroup(t: string, padded: string, letters: string, s: seq<Base64Url.Sextet>, b: Bytes)
    requires padded == Base64Url.ReplaceAll(Base64Url.StdOfUrl, t) + Base64Url.Padding(|t|)
    requires Base64Url.WithoutPadding(Base64Url.WithoutSpaces(padded)) == letters && |letters| % 4 != 1
    requires letters == Base64Url.StdText(s) && Base64Url.WholeBytes(s) == b
    ensures Base64Url.Decode(t) == Some(b)
  {
    hide Base64Url.WithoutSpaces, Base64Url.WithoutPadding, Base64Url.WholeBytes, Base64Url.Values, Base64Url.Padding;
    Base64Url.ValuesOfText(s);
  }

  /** What it refuses: a lone character and strange characters. */
  lemma LoneCharacterRefused()
    ensures Base64Url.Decode("Z") == None
  {
    hide Base64Url.Decode;
    Base64Url.DecodeUrlText("Z");
  }

  lemma StrangeCharactersRefused(t: string, k: nat)
    requires forall i :: 0 <= i < |t| ==> !Base64Url.AsciiSpace(t[i]) && t[i] != '='
    requires k < |t| && Base64Url.StdValue(Base64Url.StdOfUrl(t[k])) == None
    ensures Base64Url.Decode(t) == None
  {
    var u := Base64Url.ReplaceAll(Base64Url.StdOfUrl, t);
    var padded := u + Base64Url.Padding(|t|);
    assert forall i :: 0 <= i < |u| ==> !Base64Url.AsciiSpace(u[i]) && u[i] != '=';
    Plain(padded);
    if |t| % 4 == 1 {
      Base64Url.StrayPadding(u);
    } else {
      Base64Url.PaddingComesOff(u);
      Base64Url.NoValue(u, k);
    }
  }

  lemma Plain(t: string)
    requires forall k :: 0 <= k < |t| ==> !Base64Url.AsciiSpace(t[k])
    ensures Base64Url.WithoutSpaces(t) == t
  {
    Base64Url.NoSpaces(t);
  }

  lemma SpacesGone()
    ensures Base64Url.WithoutSpaces("Z g ") == "Zg"
  {
    var t := "Z g ";
    assert t[1..] == " g " && t[1..][1..] == "g " && t[1..][1..][1..] == " " && t[1..][1..][1..][1..] == "";
    assert Base64Url.WithoutSpaces(" ") == "" by { assert " "[1..] == ""; }
    assert Base64Url.WithoutSpaces("g ") == "g" by { assert "g "[1..] == " "; }
    assert Base64Url.WithoutSpaces(" g ") == "g" by { assert " g "[1..] == "g "; }
  }

  /** A leading 0x is passed over, once. */
  lemma PrefixIsSkipped(b: Bytes)
    ensures OfflineVerifiers.Unhex([48, 120] + Utf16(OfflineVerifiers.Hex(b))) == Some(b)
  {
    var t := Utf16(OfflineVerifiers.Hex(b));
    assert [48, 120] <= [48, 120] + t && ([48, 120] + t)[2..] == t;
    OfflineVerifiers.DecodedHex(b);
  }

  /** Only strings decode. */
  lemma OnlyStringsDecode(v: Json)
    ensures !v.Str? ==> LabVerify.DecodeJson(v) == None
    ensures v.Str? ==> LabVerify.DecodeJson(v) == Base64Url.Decode(v.s)
  {
  }

  /** Which field of a bundle is what to the signature check, and which value goes into which field. */
  lemma BundleFields(js: OfflineVerifiers.JsVerifyFn, p: OfflineVerifiers.WireBundle, b: Provenance.Bundle)
    ensures OfflineVerifiers.SignatureCheck(js, p) == Some(true) <==>
      && OfflineVerifiers.Unhex(p.identityPk).Some? && OfflineVerifiers.Unhex(p.contentHash).Some?
      && OfflineVerifiers.Unhex(p.signature).Some?
      && js(OfflineVerifiers.Unhex(p.identityPk).value, OfflineVerifiers.Unhex(p.contentHash).value,
            OfflineVerifiers.Unhex(p.signature).value) == Some(true)
    ensures var wire := OfflineVerifiers.OnTheWire(b);
      && wire.identityPk == Utf16(OfflineVerifiers.Hex(b.cell.identityPk))
      && wire.contentHash == Utf16(OfflineVerifiers.Hex(b.cell.contentHash))
      && wire.signature == Utf16(OfflineVerifiers.Hex(b.cell.signature))
      && wire.merkleRoot == Utf16(OfflineVerifiers.Hex(b.epoch.merkleRoot))
  {
    hide OfflineVerifiers.Unhex, OfflineVerifiers.Hex;
  }

  /** A record without signing time sorts as the empty text. */
  lemma MissingTimeIsEmpty<T>(rest: T, s: string)
    ensures Timestamps.SortText(Timestamps.Signed(None, rest)) == ""
    ensures Timestamps.SortText(Timestamps.Signed(Some(s), rest)) == s
  {
  }

  // ---------------------------------------------------------------------------
  // Trees
  // ---------------------------------------------------------------------------

  /** Two, three and four leaves, left before right, the last one doubled when it has no partner. */
  lemma SmallTrees<D>(f: PairHash<D>, a: D, b: D, c: D, d: D)
    ensures Root(f, [a]) == a
    ensures Root(f, [a, b]) == f(a, b)
    ensures Root(f, [a, b, c]) == f(f(a, b), f(c, c))
    ensures Root(f, [a, b, c, d]) == f(f(a, b), f(c, d))
    ensures Depth(1) == 0 && Depth(2) == 1 && Depth(3) == 2 && Depth(4) == 2
  {
    PairRoot(f, a, b);
    var three, four := Above(f, [a, b, c]), Above(f, [a, b, c, d]);
    assert three[0] == Parent(f, [a, b, c], 0) && three[1] == Parent(f, [a, b, c], 1);
    assert three == [f(a, b), f(c, c)];
    assert four[0] == Parent(f, [a, b, c, d], 0) && four[1] == Parent(f, [a, b, c, d], 1);
    assert four == [f(a, b), f(c, d)];
    PairRoot(f, f(a, b), f(c, c));
    PairRoot(f, f(a, b), f(c, d));
  }

  lemma PairRoot<D>(f: PairHash<D>, a: D, b: D)
    ensures Root(f, [a, b]) == f(a, b)
  {
    var up := Above(f, [a, b]);
    assert up[0] == Parent(f, [a, b], 0);
    assert up == [f(a, b)];
  }

  /** No leaves, 32 zero bytes; one leaf, itself; two leaves, the hash of their bytes, left first. */
  lemma SmallEpochs(h: HashFn, l: Digest, r: Digest)
    ensures |EpochRoot(h, [])| == 32 && forall i :: 0 <= i < 32 ==> EpochRoot(h, [])[i] == 0
    ensures EpochRoot(h, [l]) == l
    ensures EpochRoot(h, [l, r]) == h(l + r)
  {
    PairRoot(NodeHash(h), l, r);
  }

  /** Which error a proof request ends in: checked in this order. */
  lemma ProofErrors(h: HashFn, leaves: seq<(int, Bytes)>, target: int)
    ensures HonestProof(h, leaves, target) == Err(EmptyEpoch) <==> leaves == []
    ensures HonestProof(h, leaves, target) == Err(TargetMissing) <==>
      leaves != [] && forall i :: 0 <= i < |leaves| ==> leaves[i].0 != target
    ensures HonestProof(h, leaves, target) == Err(WrongHashLength) <==>
      && (exists i :: 0 <= i < |leaves| && leaves[i].0 == target)
      && (exists i :: 0 <= i < |leaves| && |leaves[i].1| != 32)
  {
  }

  // ---------------------------------------------------------------------------
  // Time
  // ---------------------------------------------------------------------------

  /** The window is a minute of nanoseconds, and the sixth of six calls exceeds a limit of five. */
  lemma SixthExceedsLimitOfFive(t: int)
    ensures RateLimit.WINDOW == 60_000_000_000
    ensures RateLimit.Admitted(5, RateLimit.Bucket(t, 0), RateLimit.Burst(t, 5)) == 5
    ensures RateLimit.Admitted(5, RateLimit.Bucket(t, 0), RateLimit.Burst(t, 5) + [t]) == 5
  {
    RateLimit.BurstFills(5, RateLimit.Bucket(t, 0), t, 5);
    RateLimit.AdmittedAppend(5, RateLimit.Bucket(t, 0), RateLimit.Burst(t, 5), [t]);
    assert [t][1..] == [];
  }

  /** The timestamps of the formatter's tests: milliseconds, microseconds, and none. */
  lemma TimestampWithMillis()
    ensures Timestamps.FormatCanonicalTs(Timestamps.Instant(2026, 2, 13, 10, 9, 9, 832_000_000))
         == "2026-02-13T10:09:09.832000+00:00"
  {
    hide Timestamps.FormatCanonicalTs, Timestamps.Digits;
    MorningInFebruary(832_000_000);
    Microseconds();
  }

  lemma TimestampWithMicros()
    ensures Timestamps.FormatCanonicalTs(Timestamps.Instant(2026, 2, 13, 10, 9, 9, 832_000))
         == "2026-02-13T10:09:09.000832+00:00"
  {
    hide Timestamps.FormatCanonicalTs, Timestamps.Digits;
    MorningInFebruary(832_000);
    Microseconds();
  }

  lemma MorningInFebruary(nanos: int)
    requires 0 <= nanos < 1_000_000_000
    ensures Timestamps.FormatCanonicalTs(Timestamps.Instant(2026, 2, 13, 10, 9, 9, nanos))
         == "2026-02-13T10:09:09." + Timestamps.Digits(nanos / 1000, 6) + "+00:00"
  {
    hide Timestamps.FormatCanonicalTs, Timestamps.Digits;
    Timestamps.TimestampText(Timestamps.Instant(2026, 2, 13, 10, 9, 9, nanos));
    Years();
    TwoDigitNumbers();
  }

  lemma TimestampAtMidnight()
    ensures Timestamps.FormatCanonicalTs(Timestamps.Instant(2024, 1, 1, 0, 0, 0, 0))
         == "2024-01-01T00:00:00.000000+00:00"
  {
    hide Timestamps.FormatCanonicalTs, Timestamps.Digits;
    Timestamps.TimestampText(Timestamps.Instant(2024, 1, 1, 0, 0, 0, 0));
    Years();
    TwoDigitNumbers();
    Microseconds();
  }

  lemma Years()
    ensures Timestamps.Digits(2026, 4) == "2026" && Timestamps.Digits(2024, 4) == "2024"
  {
    hide Timestamps.Digits;
    SplitDigits(2026, 2);
    SplitDigits(2024, 2);
    Timestamps.TwoDigits(20);
    Timestamps.TwoDigits(26);
    Timestamps.TwoDigits(24);
  }

  lemma TwoDigitNumbers()
    ensures Timestamps.Digits(0, 2) == "00" && Timestamps.Digits(1, 2) == "01" && Timestamps.Digits(2, 2) == "02"
    ensures Timestamps.Digits(9, 2) == "09" && Timestamps.Digits(10, 2) == "10" && Timestamps.Digits(13, 2) == "13"
  {
    hide Timestamps.Digits;
    Timestamps.TwoDigits(0);
    Timestamps.TwoDigits(1);
    Timestamps.TwoDigits(2);
    Timestamps.TwoDigits(9);
    Timestamps.TwoDigits(10);
    Timestamps.TwoDigits(13);
  }

  lemma Microseconds()
    ensures Timestamps.Digits(832_000, 6) == "832000" && Timestamps.Digits(832, 6) == "000832"
    ensures Timestamps.Digits(0, 6) == "000000"
  {
    hide Timestamps.Digits;
    SixDigits(832_000);
    SixDigits(832);
    SixDigits(0);
    Timestamps.TwoDigits(83);
    Timestamps.TwoDigits(20);
    Timestamps.TwoDigits(0);
    Timestamps.TwoDigits(8);
    Timestamps.TwoDigits(32);
  }

  lemma SixDigits(n: int)
    requires 0 <= n < 1_000_000
    ensures Timestamps.Digits(n, 6)
         == Timestamps.Digits(n / 10_000, 2) + Timestamps.Digits(n / 100 % 100, 2) + Timestamps.Digits(n % 100, 2)
  {
    hide Timestamps.Digits;
    SplitDigits(n, 4);
    SplitDigits(n / 100, 2);
    assert n / 100 / 100 == n / 10_000;
  }

  /** The last two digits, and those before. */
  lemma SplitDigits(n: int, front: nat)
    requires 0 <= n
    ensures Timestamps.Digits(n, front + 2) == Timestamps.Digits(n / 100, front) + Timestamps.Digits(n % 100, 2)
  {
    Timestamps.TwoDigits(n % 100);
    assert n / 10 / 10 == n / 100 && n / 10 % 10 == n % 100 / 10 && n % 10 == n % 100 % 10;
    assert Timestamps.Digits(n, front + 2) == Timestamps.Digits(n / 10, front + 1) + [Timestamps.Digit(n)];
    assert Timestamps.Digits(n / 10, front + 1)
        == Timestamps.Digits(n / 10 / 10, front) + [Timestamps.Digit(n / 10)];
  }

  /** Epochs are sealed from 2026-04-01T06:00Z on, twice a day at six, counted in seconds from 1970. */
  lemma SealTimes(epoch: int)
    requires 0 <= epoch < 10
    ensures SealedAt(epoch + 1) - SealedAt(epoch) == 12 * 60 * 60
    ensures var t := Timestamps.Instant(2026, 4, 1 + epoch / 2, if epoch % 2 == 0 then 6 else 18, 0, 0, 0);
      Timestamps.InRange(t)
      && Timestamps.Micros(t) - Timestamps.Micros(Timestamps.Instant(1970, 1, 1, 0, 0, 0, 0))
         == 1_000_000 * SealedAt(epoch)
  {
    hide Timestamps.DaysBeforeYear, Timestamps.DaysBeforeMonth, Timestamps.DaysIn;
    Timestamps.DaysBeforeYearIs(1970);
    Timestamps.DaysBeforeYearIs(2026);
    FirstQuarter();
  }

  lemma FirstQuarter()
    ensures Timestamps.DaysBeforeMonth(2026, 4) == 90 && Timestamps.DaysBeforeMonth(1970, 1) == 0
    ensures Timestamps.DaysIn(2026, 4) == 30 && Timestamps.DaysIn(1970, 1) == 31
  {
    assert Timestamps.DaysBeforeMonth(2026, 2) == 31;
    assert Timestamps.DaysBeforeMonth(2026, 3) == 59;
  }
}
