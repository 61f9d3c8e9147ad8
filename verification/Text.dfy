/** Unicode encodings and the orders keys are sorted by. */
module Text {
  import opened Bytes

  /** RFC 3629: what Rust strings consist of, and what is hashed and signed. */
  function Utf8Char(c: char): (b: Bytes)
    ensures 1 <= |b|
  {
    var n := c as int;
    if n < 0x80 then [n]
    else if n < 0x800 then [0xC0 + n / 0x40, 0x80 + n % 0x40]
    else if n < 0x1_0000 then [0xE0 + n / 0x1000, 0x80 + n / 0x40 % 0x40, 0x80 + n % 0x40]
    else [0xF0 + n / 0x4_0000, 0x80 + n / 0x1000 % 0x40, 0x80 + n / 0x40 % 0x40, 0x80 + n % 0x40]
  }

  function Utf8(s: string): Bytes {
    if s == "" then [] else Utf8Char(s[0]) + Utf8(s[1..])
  }

  /** The code units JavaScript compares strings by. */
  function Utf16Char(c: char): (u: seq<int>)
    ensures 1 <= |u|
  {
    var n := c as int;
    if n < 0x1_0000 then [n] else [0xD800 + (n - 0x1_0000) / 0x400, 0xDC00 + (n - 0x1_0000) % 0x400]
  }

  function Utf16(s: string): seq<int> {
    if s == "" then [] else Utf16Char(s[0]) + Utf16(s[1..])
  }

  /** The scalar value a UTF-8 text starts with. */
  function FirstOfUtf8(b: seq<int>): int
    requires b != []
    requires b[0] >= 0x80 ==> |b| > 1
    requires b[0] >= 0xE0 ==> |b| > 2
    requires b[0] >= 0xF0 ==> |b| > 3
  {
    if b[0] < 0x80 then b[0]
    else if b[0] < 0xE0 then (b[0] - 0xC0) * 0x40 + (b[1] - 0x80)
    else if b[0] < 0xF0 then (b[0] - 0xE0) * 0x1000 + (b[1] - 0x80) * 0x40 + (b[2] - 0x80)
    else (b[0] - 0xF0) * 0x4_0000 + (b[1] - 0x80) * 0x1000 + (b[2] - 0x80) * 0x40 + (b[3] - 0x80)
  }

  lemma Utf8Starts(c: char, x: Bytes)
    ensures var b := Utf8Char(c) + x;
      && (b[0] >= 0x80 ==> |b| > 1) && (b[0] >= 0xE0 ==> |b| > 2) && (b[0] >= 0xF0 ==> |b| > 3)
      && FirstOfUtf8(b) == c as int
      && b[|Utf8Char(c)|..] == x
  {
    var n, b := c as int, Utf8Char(c) + x;
    assert n / 0x1000 == n / 0x40 / 0x40 && n / 0x4_0000 == n / 0x40 / 0x40 / 0x40;
    assert b[0] == Utf8Char(c)[0];
  }

  lemma Utf8CharSelfDelimiting(c: char, d: char, x: Bytes, y: Bytes)
    requires Utf8Char(c) + x == Utf8Char(d) + y
    ensures c == d && x == y
  {
    Utf8Starts(c, x);
    Utf8Starts(d, y);
    assert c as int == d as int;
  }

  lemma {:induction false} Utf8Injective(s: string, t: string)
    requires Utf8(s) == Utf8(t)
    ensures s == t
  {
    if s == "" || t == "" {
    } else {
      Utf8CharSelfDelimiting(s[0], t[0], Utf8(s[1..]), Utf8(t[1..]));
      Utf8Injective(s[1..], t[1..]);
    }
  }

  function FirstOfUtf16(u: seq<int>): int
    requires u != [] && (0xD800 <= u[0] < 0xDC00 ==> |u| > 1)
  {
    if 0xD800 <= u[0] < 0xDC00 then 0x1_0000 + (u[0] - 0xD800) * 0x400 + (u[1] - 0xDC00) else u[0]
  }

  lemma Utf16Starts(c: char, x: seq<int>)
    ensures var u := Utf16Char(c) + x;
      && (0xD800 <= u[0] < 0xDC00 ==> |u| > 1)
      && FirstOfUtf16(u) == c as int
      && u[|Utf16Char(c)|..] == x
  {
    var u := Utf16Char(c) + x;
    assert u[0] == Utf16Char(c)[0];
  }

  lemma Utf16CharSelfDelimiting(c: char, d: char, x: seq<int>, y: seq<int>)
    requires Utf16Char(c) + x == Utf16Char(d) + y
    ensures c == d && x == y
  {
    Utf16Starts(c, x);
    Utf16Starts(d, y);
    assert c as int == d as int;
  }

  lemma {:induction false} Utf16Injective(s: string, t: string)
    requires Utf16(s) == Utf16(t)
    ensures s == t
  {
    if s == "" || t == "" {
    } else {
      Utf16CharSelfDelimiting(s[0], t[0], Utf16(s[1..]), Utf16(t[1..]));
      Utf16Injective(s[1..], t[1..]);
    }
  }

  // ---------------------------------------------------------------------------
  // Lexicographic order
  // ---------------------------------------------------------------------------

  predicate Precedes(a: seq<int>, b: seq<int>)
    decreases |a|
  {
    b != [] && (a == [] || a[0] < b[0] || (a[0] == b[0] && Precedes(a[1..], b[1..])))
  }

  lemma {:induction false} PrecedesIsTotal(a: seq<int>, b: seq<int>)
    ensures Precedes(a, b) || a == b || Precedes(b, a)
    ensures !(Precedes(a, b) && Precedes(b, a)) && !Precedes(a, a)
    decreases |a|
  {
    if a == [] {
    } else {
      PrecedesIsTotal(a[1..], a[1..]);
      if b != [] {
        PrecedesIsTotal(a[1..], b[1..]);
        assert a == [a[0]] + a[1..] && b == [b[0]] + b[1..];
      }
    }
  }

  lemma {:induction false} PrecedesIsTransitive(a: seq<int>, b: seq<int>, c: seq<int>)
    requires Precedes(a, b) && Precedes(b, c)
    ensures Precedes(a, c)
    decreases |a|
  {
    if a == [] || a[0] != b[0] || b[0] != c[0] {
    } else {
      PrecedesIsTransitive(a[1..], b[1..], c[1..]);
    }
  }

  /** One sequence precedes another where it ends first, or has the smaller number at the first difference. */
  lemma {:induction false} PrecedesMeans(a: seq<int>, b: seq<int>)
    ensures Precedes(a, b) <==> exists k: nat :: FirstDifference(a, b, k)
    decreases |a|
  {
    if a == [] || b == [] || a[0] != b[0] {
      assert Precedes(a, b) ==> FirstDifference(a, b, 0);
    } else {
      PrecedesMeans(a[1..], b[1..]);
      if Precedes(a, b) {
        var k: nat :| FirstDifference(a[1..], b[1..], k);
        assert a[..k + 1] == [a[0]] + a[1..][..k] && b[..k + 1] == [b[0]] + b[1..][..k];
        assert FirstDifference(a, b, k + 1);
      }
      if exists k: nat :: FirstDifference(a, b, k) {
        var k: nat :| FirstDifference(a, b, k);
        assert a[1..][..k - 1] == a[..k][1..] && b[1..][..k - 1] == b[..k][1..];
        assert FirstDifference(a[1..], b[1..], k - 1);
      }
    }
  }

  predicate FirstDifference(a: seq<int>, b: seq<int>, k: nat) {
    && k <= |a| && k < |b| && a[..k] == b[..k]
    && (k == |a| || a[k] < b[k])
  }

  /** The shortest form, with lead and continuation bytes in their ranges. */
  lemma Utf8CharIsShortest(c: char)
    ensures var n, b := c as int, Utf8Char(c);
      && |b| == (if n < 0x80 then 1 else if n < 0x800 then 2 else if n < 0x1_0000 then 3 else 4)
      && (n < 0x80 ==> b == [n])
      && (forall k :: 1 <= k < |b| ==> 0x80 <= b[k] < 0xC0)
      && (|b| == 2 ==> 0xC0 <= b[0] < 0xE0) && (|b| == 3 ==> 0xE0 <= b[0] < 0xF0) && (|b| == 4 ==> 0xF0 <= b[0])
  {
  }

  lemma Utf16CharIs(c: char)
    ensures c as int < 0x1_0000 ==> Utf16Char(c) == [c as int]
    ensures c as int >= 0x1_0000 ==>
      |Utf16Char(c)| == 2 && 0xD800 <= Utf16Char(c)[0] < 0xDC00 <= Utf16Char(c)[1] < 0xE000
  {
  }

  /** A text of characters below 0x80 is its codes, to UTF-8 and UTF-16 alike. */
  lemma {:induction false} AsciiIsItself(s: string)
    requires forall i :: 0 <= i < |s| ==> s[i] as int < 0x80
    ensures |Utf8(s)| == |s| && forall i :: 0 <= i < |s| ==> Utf8(s)[i] == s[i] as int
    ensures |Utf16(s)| == |s| && forall i :: 0 <= i < |s| ==> Utf16(s)[i] == s[i] as int
  {
    if s == "" {
    } else {
      AsciiIsItself(s[1..]);
    }
  }
}
