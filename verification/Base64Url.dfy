/** base64url without padding (section 5 of RFC 4648), over the browser's atob and btoa. */
module Base64Url {
  import opened Bytes

  type Sextet = n: int | 0 <= n < 64

  // ---------------------------------------------------------------------------
  // Bits
  // ---------------------------------------------------------------------------

  /** The bits of b in groups of six, the last group filled up with zeros. */
  function Sextets(b: Bytes): seq<Sextet> {
    if b == [] then []
    else if |b| == 1 then [b[0] / 4, b[0] % 4 * 16]
    else if |b| == 2 then [b[0] / 4, b[0] % 4 * 16 + b[1] / 16, b[1] % 16 * 4]
    else [b[0] / 4, b[0] % 4 * 16 + b[1] / 16, b[1] % 16 * 4 + b[2] / 64, b[2] % 64] + Sextets(b[3..])
  }

  function Byte0(a: int, b: int): Byte
    requires 0 <= a < 64 && 0 <= b < 64
  {
    a * 4 + b / 16
  }

  function Byte1(b: int, c: int): Byte
    requires 0 <= b < 64 && 0 <= c < 64
  {
    b % 16 * 16 + c / 4
  }

  function Byte2(c: int, d: int): Byte
    requires 0 <= c < 64 && 0 <= d < 64
  {
    c % 4 * 64 + d
  }

  /** The whole bytes in a list of sextets; leftover bits are discarded. */
  function WholeBytes(s: seq<Sextet>): Bytes {
    if |s| < 2 then []
    else if |s| == 2 then [Byte0(s[0], s[1])]
    else if |s| == 3 then [Byte0(s[0], s[1]), Byte1(s[1], s[2])]
    else [Byte0(s[0], s[1]), Byte1(s[1], s[2]), Byte2(s[2], s[3])] + WholeBytes(s[4..])
  }

  lemma {:induction false} WholeBytesOfSextets(b: Bytes)
    ensures WholeBytes(Sextets(b)) == b
    decreases |b|
  {
    if |b| == 0 {
    } else if |b| == 1 {
      OneByteBack(b[0]);
      assert b == [b[0]];
    } else if |b| == 2 {
      TwoBytesBack(b[0], b[1]);
      assert b == [b[0], b[1]];
    } else {
      hide Sextets, WholeBytes;
      WholeBytesOfSextets(b[3..]);
      GroupPacked(b[0], b[1], b[2], b[3..]);
      assert b == [b[0], b[1], b[2]] + b[3..];
    }
  }

  lemma OneByteBack(x: Byte)
    ensures WholeBytes(Sextets([x])) == [x]
  {
    assert x / 4 * 4 + x % 4 * 16 / 16 == x;
  }

  lemma TwoBytesBack(x: Byte, y: Byte)
    ensures WholeBytes(Sextets([x, y])) == [x, y]
  {
    var a, b, c := x / 4, x % 4 * 16 + y / 16, y % 16 * 4;
    assert Sextets([x, y]) == [a, b, c];
    hide Sextets;
    BytesOfGroup(x, y, 0);
    hide Byte0, Byte1;
    assert WholeBytes([a, b, c]) == [Byte0(a, b), Byte1(b, c)];
  }

  /** One full group on its own. */
  lemma GroupPacked(x: Byte, y: Byte, z: Byte, rest: Bytes)
    ensures WholeBytes(Sextets([x, y, z] + rest)) == [x, y, z] + WholeBytes(Sextets(rest))
  {
    hide WholeBytes;
    var a, b, c, d := x / 4, x % 4 * 16 + y / 16, y % 16 * 4 + z / 64, z % 64;
    SextetsOfGroup(x, y, z, rest, a, b, c, d);
    hide Sextets;
    BytesOfGroup(x, y, z);
    WholeBytesOfGroup(a, b, c, d, Sextets(rest));
  }

  lemma WholeBytesOfGroup(a: Sextet, b: Sextet, c: Sextet, d: Sextet, rest: seq<Sextet>)
    ensures WholeBytes([a, b, c, d] + rest) == [Byte0(a, b), Byte1(b, c), Byte2(c, d)] + WholeBytes(rest)
  {
    hide Byte0, Byte1, Byte2;
    assert ([a, b, c, d] + rest)[4..] == rest;
  }

  lemma {:induction false} SextetsLength(b: Bytes)
    ensures |Sextets(b)| == (4 * |b| + 2) / 3 && |Sextets(b)| % 4 != 1
    decreases |b|
  {
    if |b| <= 2 {
    } else {
      SextetsLength(b[3..]);
      assert |Sextets(b)| == 4 + |Sextets(b[3..])|;
    }
  }

  lemma BytesOfGroup(x: Byte, y: Byte, z: Byte)
    ensures var a, b, c, d := x / 4, x % 4 * 16 + y / 16, y % 16 * 4 + z / 64, z % 64;
      Byte0(a, b) == x && Byte1(b, c) == y && Byte2(c, d) == z
  {
  }

  /** No bit is left over but zeros (section 3.5 of RFC 4648). */
  predicate NothingLost(s: seq<Sextet>) {
    && |s| % 4 != 1
    && (|s| % 4 == 2 ==> s[|s| - 1] % 16 == 0)
    && (|s| % 4 == 3 ==> s[|s| - 1] % 4 == 0)
  }

  lemma GroupBack(a: Sextet, b: Sextet, c: Sextet, d: Sextet)
    ensures var x, y, z := Byte0(a, b), Byte1(b, c), Byte2(c, d);
      && x / 4 == a && x % 4 * 16 + y / 16 == b && y % 16 * 4 + z / 64 == c && z % 64 == d
      && (x % 4 * 16 == b <==> b % 16 == 0)
      && (y % 16 * 4 == c <==> c % 4 == 0)
  {
  }

  lemma SextetsOfGroup(x: Byte, y: Byte, z: Byte, rest: Bytes, a: Sextet, b: Sextet, c: Sextet, d: Sextet)
    requires x / 4 == a && x % 4 * 16 + y / 16 == b && y % 16 * 4 + z / 64 == c && z % 64 == d
    ensures Sextets([x, y, z] + rest) == [a, b, c, d] + Sextets(rest)
  {
    assert ([x, y, z] + rest)[3..] == rest;
  }

  lemma FullGroup(a: Sextet, b: Sextet, c: Sextet, d: Sextet, rest: Bytes)
    ensures Sextets([Byte0(a, b), Byte1(b, c), Byte2(c, d)] + rest) == [a, b, c, d] + Sextets(rest)
  {
    GroupBack(a, b, c, d);
    SextetsOfGroup(Byte0(a, b), Byte1(b, c), Byte2(c, d), rest, a, b, c, d);
  }

  lemma LastPair(a: Sextet, b: Sextet)
    ensures Sextets(WholeBytes([a, b])) == [a, b] <==> NothingLost([a, b])
  {
  }

  lemma TripleBack(a: Sextet, b: Sextet, c: Sextet)
    ensures Sextets([Byte0(a, b), Byte1(b, c)]) == [a, b, c] <==> c % 4 == 0
  {
    GroupBack(a, b, c, 0);
  }

  lemma LastTriple(a: Sextet, b: Sextet, c: Sextet)
    ensures Sextets(WholeBytes([a, b, c])) == [a, b, c] <==> NothingLost([a, b, c])
  {
    TripleBack(a, b, c);
    assert WholeBytes([a, b, c]) == [Byte0(a, b), Byte1(b, c)];
  }

  lemma LossIsInLastGroup(s: seq<Sextet>)
    requires |s| >= 4
    ensures NothingLost(s) <==> NothingLost(s[4..])
  {
    assert |s[4..]| % 4 == |s| % 4;
    if |s| > 4 {
      assert s[4..][|s[4..]| - 1] == s[|s| - 1];
    }
  }

  lemma GroupPeeled(s: seq<Sextet>)
    requires |s| >= 4
    ensures Sextets(WholeBytes(s)) == s <==> Sextets(WholeBytes(s[4..])) == s[4..]
  {
    hide Sextets;
    var head, rest := [s[0], s[1], s[2], s[3]], Sextets(WholeBytes(s[4..]));
    FullGroup(s[0], s[1], s[2], s[3], WholeBytes(s[4..]));
    assert s == head + s[4..];
    assert (head + rest)[4..] == rest && (head + s[4..])[4..] == s[4..];
  }

  lemma {:induction false} SextetsOfWholeBytes(s: seq<Sextet>)
    ensures Sextets(WholeBytes(s)) == s <==> NothingLost(s)
  {
    if |s| == 1 {
      assert WholeBytes(s) == [];
    } else if |s| == 2 {
      assert s == [s[0], s[1]];
      LastPair(s[0], s[1]);
    } else if |s| == 3 {
      assert s == [s[0], s[1], s[2]];
      LastTriple(s[0], s[1], s[2]);
    } else if |s| >= 4 {
      hide Sextets, NothingLost;
      GroupPeeled(s);
      SextetsOfWholeBytes(s[4..]);
      LossIsInLastGroup(s);
    }
  }

  // ---------------------------------------------------------------------------
  // Alphabets
  // ---------------------------------------------------------------------------

  function StdChar(n: Sextet): char {
    if n < 26 then (65 + n) as char
    else if n < 52 then (71 + n) as char
    else if n < 62 then (n - 4) as char
    else if n == 62 then '+' else '/'
  }

  function StdValue(c: char): Option<Sextet> {
    if 'A' <= c <= 'Z' then Some(c as int - 65)
    else if 'a' <= c <= 'z' then Some(c as int - 71)
    else if '0' <= c <= '9' then Some(c as int + 4)
    else if c == '+' then Some(62)
    else if c == '/' then Some(63)
    else None
  }

  function UrlOfStd(c: char): char {
    if c == '+' then '-' else if c == '/' then '_' else c
  }

  function StdOfUrl(c: char): char {
    if c == '-' then '+' else if c == '_' then '/' else c
  }

  function StdText(s: seq<Sextet>): (t: string)
    ensures |t| == |s| && forall k :: 0 <= k < |s| ==> t[k] == StdChar(s[k])
  {
    seq(|s|, k requires 0 <= k < |s| => StdChar(s[k]))
  }

  function ReplaceAll(f: char -> char, t: string): (r: string)
    ensures |r| == |t| && forall k :: 0 <= k < |t| ==> r[k] == f(t[k])
  {
    seq(|t|, k requires 0 <= k < |t| => f(t[k]))
  }

  /** The text the lab and the verifier exchange. */
  function Encode(b: Bytes): string {
    ReplaceAll(UrlOfStd, StdText(Sextets(b)))
  }

  predicate UrlAlphabet(t: string) {
    forall k :: 0 <= k < |t| ==> t[k] != '+' && t[k] != '/' && StdValue(StdOfUrl(t[k])).Some?
  }

  lemma CharRoundTrip(n: Sextet)
    ensures StdValue(StdChar(n)) == Some(n)
    ensures StdOfUrl(UrlOfStd(StdChar(n))) == StdChar(n)
    ensures UrlOfStd(StdChar(n)) != '+' && UrlOfStd(StdChar(n)) != '/' && StdChar(n) != '='
  {
  }

  lemma EncodeUsesUrlAlphabet(b: Bytes)
    ensures UrlAlphabet(Encode(b)) && |Encode(b)| == (4 * |b| + 2) / 3
  {
    SextetsLength(b);
    forall k | 0 <= k < |Encode(b)|
      ensures Encode(b)[k] != '+' && Encode(b)[k] != '/' && StdValue(StdOfUrl(Encode(b)[k])).Some?
    {
      CharRoundTrip(Sextets(b)[k]);
    }
  }

  // ---------------------------------------------------------------------------
  // atob and btoa
  // ---------------------------------------------------------------------------

  function Padding(n: nat): string {
    match (4 - n % 4) % 4
    case 0 => ""
    case 1 => "="
    case 2 => "=="
    case _ => "==="
  }

  function Btoa(b: Bytes): string {
    StdText(Sextets(b)) + Padding(|Sextets(b)|)
  }

  predicate AsciiSpace(c: char) {
    c as int == 9 || c as int == 10 || c as int == 12 || c as int == 13 || c == ' '
  }

  function WithoutSpaces(t: string): string {
    if t == "" then "" else (if AsciiSpace(t[0]) then "" else [t[0]]) + WithoutSpaces(t[1..])
  }

  function Values(t: string): Option<seq<Sextet>> {
    if t == "" then Some([])
    else
      match (StdValue(t[0]), Values(t[1..]))
      case (Some(v), Some(rest)) => Some([v] + rest)
      case _ => None
  }

  /** A text of full groups may end in one or two padding signs. */
  function WithoutPadding(t: string): string {
    if |t| % 4 != 0 || t == "" || t[|t| - 1] != '=' then t
    else if t[|t| - 2] != '=' then t[..|t| - 1]
    else t[..|t| - 2]
  }

  /** The browser's forgiving decoder; None where it throws. */
  function Atob(t: string): Option<Bytes> {
    var u := WithoutPadding(WithoutSpaces(t));
    if |u| % 4 == 1 then None
    else
      match Values(u)
      case None => None
      case Some(s) => Some(WholeBytes(s))
  }

  function StripEquals(t: string): string {
    if t != "" && t[|t| - 1] == '=' then StripEquals(t[..|t| - 1]) else t
  }

  /** What b64uToBytes makes of a string. */
  function Decode(t: string): Option<Bytes> {
    var b64 := ReplaceAll(StdOfUrl, t);
    Atob(b64 + Padding(|b64|))
  }

  // ---------------------------------------------------------------------------
  // The functions of the verifier
  // ---------------------------------------------------------------------------

  method BytesToB64u(bytes: Bytes) returns (s: string)
    ensures s == Encode(bytes)
  {
    var bin: seq<char> := "";
    for i := 0 to |bytes|
      invariant |bin| == i && forall k :: 0 <= k < i ==> bin[k] as int == bytes[k]
    {
      bin := bin + [bytes[i] as char];
    }
    var b64 := Btoa(Codes(bin));
    assert Codes(bin) == bytes;
    StripPadded(bytes);
    s := StripEquals(ReplaceAll(UrlOfStd, b64));
  }

  /** The characters of a binary string as bytes. */
  function Codes(bin: string): (b: Bytes)
    requires forall k :: 0 <= k < |bin| ==> bin[k] as int < 256
    ensures |b| == |bin| && forall k :: 0 <= k < |b| ==> b[k] == bin[k] as int
  {
    if bin == "" then [] else [bin[0] as int] + Codes(bin[1..])
  }

  lemma {:induction false} StripEqualsTail(t: string, n: nat)
    requires t != "" ==> t[|t| - 1] != '='
    requires n <= 3
    ensures StripEquals(t + ("===")[..n]) == t
  {
    var u := t + ("===")[..n];
    if n > 0 {
      assert u[|u| - 1] == '=' && u[..|u| - 1] == t + ("===")[..n - 1];
      StripEqualsTail(t, n - 1);
    } else {
      assert u == t;
    }
  }

  lemma StripPadded(b: Bytes)
    ensures StripEquals(ReplaceAll(UrlOfStd, Btoa(b))) == Encode(b)
  {
    var s, p := Sextets(b), Padding(|Sextets(b)|);
    assert p == ("===")[..|p|];
    assert ReplaceAll(UrlOfStd, Btoa(b)) == Encode(b) + p;
    if s != [] {
      CharRoundTrip(s[|s| - 1]);
      EncodeUsesUrlAlphabet(b);
    }
    StripEqualsTail(Encode(b), |p|);
  }

  method B64uToBytes(s: string) returns (r: Option<Bytes>)
    ensures r == Decode(s)
  {
    var b64 := ReplaceAll(StdOfUrl, s);
    var pad := (4 - |b64| % 4) % 4;
    assert Padding(|b64|) == ("===")[..pad];
    b64 := b64 + ("===")[..pad];
    var bin := Atob(b64);
    if bin.None? {
      return None;
    }
    var out := new Byte[|bin.value|];
    for i := 0 to out.Length
      invariant out[..i] == bin.value[..i]
    {
      out[i] := bin.value[i];
    }
    assert out[..] == bin.value;
    r := Some(out[..]);
  }

  // ---------------------------------------------------------------------------
  // Round trips
  // ---------------------------------------------------------------------------

  lemma {:induction false} NoSpaces(t: string)
    requires forall k :: 0 <= k < |t| ==> !AsciiSpace(t[k])
    ensures WithoutSpaces(t) == t
  {
    if t == "" {
    } else {
      NoSpaces(t[1..]);
      assert t == [t[0]] + t[1..];
    }
  }

  lemma {:induction false} ValuesOfText(s: seq<Sextet>)
    ensures Values(StdText(s)) == Some(s)
  {
    if s == [] {
    } else {
      CharRoundTrip(s[0]);
      assert StdText(s)[1..] == StdText(s[1..]);
      ValuesOfText(s[1..]);
      assert s == [s[0]] + s[1..];
    }
  }

  lemma {:induction false} TextOfValues(t: string)
    requires Values(t).Some?
    ensures StdText(Values(t).value) == t
  {
    if t == "" {
    } else {
      TextOfValues(t[1..]);
      assert t == [t[0]] + t[1..];
    }
  }

  /** Padding up a text without padding signs and taking the padding off again. */
  lemma PaddingComesOff(t: string)
    requires |t| % 4 != 1 && (t == "" || t[|t| - 1] != '=')
    ensures WithoutPadding(t + Padding(|t|)) == t
  {
    var p := Padding(|t|);
    var u := t + p;
    assert u[..|t|] == t;
    if |p| == 1 {
      assert u[|u| - 1] == '=' && u[|u| - 2] == t[|t| - 1];
    } else if |p| == 2 {
      assert u[|u| - 1] == '=' && u[|u| - 2] == '=';
    } else {
      assert u == t;
    }
  }

  /** A text in the URL alphabet decodes exactly when its length is possible, to its whole bytes. */
  lemma DecodeUrlText(t: string)
    requires UrlAlphabet(t)
    ensures Values(ReplaceAll(StdOfUrl, t)).Some?
    ensures Decode(t) == if |t| % 4 == 1 then None else Some(WholeBytes(Values(ReplaceAll(StdOfUrl, t)).value))
  {
    var b64 := ReplaceAll(StdOfUrl, t);
    var u := b64 + Padding(|b64|);
    AllValues(b64);
    assert forall k :: 0 <= k < |b64| ==> StdValue(b64[k]).Some?;
    NoSpaces(u);
    if |t| % 4 == 1 {
      StrayPadding(b64);
    } else {
      PaddingComesOff(b64);
    }
  }

  lemma {:induction false} AllValues(t: string)
    requires forall k :: 0 <= k < |t| ==> StdValue(t[k]).Some?
    ensures Values(t).Some? && |Values(t).value| == |t|
  {
    if t == "" {
    } else {
      AllValues(t[1..]);
    }
  }

  lemma {:induction false} NoValue(t: string, k: nat)
    requires k < |t| && StdValue(t[k]) == None
    ensures Values(t) == None
  {
    if k == 0 {
    } else {
      NoValue(t[1..], k - 1);
    }
  }

  /** One character over a full group gets three padding signs, of which one stays and is refused. */
  lemma StrayPadding(t: string)
    requires |t| % 4 == 1
    ensures Values(WithoutPadding(t + Padding(|t|))) == None
  {
    var u := t + "===";
    assert WithoutPadding(u) == u[..|t| + 1];
    NoValue(u[..|t| + 1], |t|);
  }

  /** Decoding undoes encoding, for every byte sequence. */
  lemma DecodeEncode(b: Bytes)
    ensures Decode(Encode(b)) == Some(b)
  {
    var s := Sextets(b);
    EncodeUsesUrlAlphabet(b);
    WholeBytesOfSextets(b);
    SextetsLength(b);
    DecodeUrlText(Encode(b));
    forall k | 0 <= k < |s| ensures ReplaceAll(StdOfUrl, Encode(b))[k] == StdText(s)[k] {
      CharRoundTrip(s[k]);
    }
    assert ReplaceAll(StdOfUrl, Encode(b)) == StdText(s);
    ValuesOfText(s);
  }

  /** Texts that spell out a byte sequence the one way an encoder would. */
  predicate CanonicalText(t: string) {
    && UrlAlphabet(t)
    && (AllValues(ReplaceAll(StdOfUrl, t)); NothingLost(Values(ReplaceAll(StdOfUrl, t)).value))
  }

  /**
   Encoding undoes decoding exactly on canonical texts. Every other text the decoder accepts, with padding,
   spaces, the standard alphabet or stray bits, is another spelling of the same bytes.
   */
  lemma EncodeDecode(t: string)
    ensures Decode(t).Some? && Encode(Decode(t).value) == t <==> CanonicalText(t)
  {
    if UrlAlphabet(t) {
      var b64 := ReplaceAll(StdOfUrl, t);
      AllValues(b64);
      var s := Values(b64).value;
      DecodeUrlText(t);
      SextetsOfWholeBytes(s);
      TextOfValues(b64);
      if Sextets(WholeBytes(s)) == s {
        forall k | 0 <= k < |t| ensures UrlOfStd(StdOfUrl(t[k])) == t[k] {
        }
        assert ReplaceAll(UrlOfStd, b64) == t;
      } else if Decode(t).Some? && Encode(WholeBytes(s)) == t {
        EncodeInjective(Sextets(WholeBytes(s)), s, t);
      }
    } else if Decode(t).Some? {
      EncodeUsesUrlAlphabet(Decode(t).value);
    }
  }

  lemma EncodeInjective(a: seq<Sextet>, b: seq<Sextet>, t: string)
    requires ReplaceAll(UrlOfStd, StdText(a)) == t && StdText(b) == ReplaceAll(StdOfUrl, t)
    ensures a == b
  {
    assert |a| == |t| == |b|;
    forall k | 0 <= k < |a| ensures a[k] == b[k] {
      CharRoundTrip(a[k]);
      CharRoundTrip(b[k]);
      assert StdText(b)[k] == StdOfUrl(t[k]) && t[k] == UrlOfStd(StdChar(a[k]));
    }
  }
}
