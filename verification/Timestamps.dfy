/**
 crates/lab-client/src/postgres.rs: the one text of a UTC instant that signatures cover, and
 demo/lab_overlay.js: picking the newest record by comparing such texts.
 */
module Timestamps {
  import opened Bytes
  import opened Text

  /** A UTC instant in the proleptic Gregorian calendar. */
  datatype Instant = Instant(year: int, month: int, day: int, hour: int, minute: int, second: int, nanos: int)

  predicate IsLeap(year: int) {
    year % 4 == 0 && (year % 100 != 0 || year % 400 == 0)
  }

  function DaysIn(year: int, month: int): (days: int)
    ensures 28 <= days <= 31
  {
    if month == 2 then (if IsLeap(year) then 29 else 28)
    else if month in {4, 6, 9, 11} then 30
    else 31
  }

  /** The instants whose year prints with four digits; leap seconds are left aside. */
  predicate InRange(t: Instant) {
    && 0 <= t.year <= 9999
    && 1 <= t.month <= 12
    && 1 <= t.day <= DaysIn(t.year, t.month)
    && 0 <= t.hour < 24 && 0 <= t.minute < 60 && 0 <= t.second < 60
    && 0 <= t.nanos < 1000000000
  }

  // ---------------------------------------------------------------------------
  // Time as a number
  // ---------------------------------------------------------------------------

  function DaysBeforeMonth(year: int, month: int): int
    requires 1 <= month <= 13
    decreases month
  {
    if month == 1 then 0 else DaysBeforeMonth(year, month - 1) + DaysIn(year, month - 1)
  }

  function DaysBeforeYear(year: nat): int {
    if year == 0 then 0 else DaysBeforeYear(year - 1) + DaysBeforeMonth(year - 1, 13)
  }

  /** Microseconds since the start of year 0, whole ones only. */
  function Micros(t: Instant): int
    requires InRange(t)
  {
    var days := DaysBeforeYear(t.year) + DaysBeforeMonth(t.year, t.month) + t.day;
    (((days * 24 + t.hour) * 60 + t.minute) * 60 + t.second) * 1000000 + t.nanos / 1000
  }

  /** The lengths of the months. */
  lemma MonthLengths(year: int, month: int)
    requires 1 <= month <= 12
    ensures DaysIn(year, month)
         == [31, if IsLeap(year) then 29 else 28, 31, 30, 31, 30, 31, 31, 30, 31, 30, 31][month - 1]
  {
  }

  lemma YearLength(year: int)
    ensures DaysBeforeMonth(year, 13) == if IsLeap(year) then 366 else 365
  {
    assert DaysBeforeMonth(year, 4) == DaysIn(year, 1) + DaysIn(year, 2) + DaysIn(year, 3);
    assert DaysBeforeMonth(year, 7)
        == DaysBeforeMonth(year, 4) + DaysIn(year, 4) + DaysIn(year, 5) + DaysIn(year, 6);
    assert DaysBeforeMonth(year, 10)
        == DaysBeforeMonth(year, 7) + DaysIn(year, 7) + DaysIn(year, 8) + DaysIn(year, 9);
    assert DaysBeforeMonth(year, 13)
        == DaysBeforeMonth(year, 10) + DaysIn(year, 10) + DaysIn(year, 11) + DaysIn(year, 12);
  }

  /** How many years before this one are multiples of n. */
  function Multiples(year: int, n: int): int
    requires n > 0
  {
    (year + n - 1) / n
  }

  /** Leap days in the years before this one: every fourth year but centuries, and every fourth century. */
  lemma {:induction false} DaysBeforeYearIs(year: nat)
    ensures DaysBeforeYear(year) == 365 * year + Multiples(year, 4) - Multiples(year, 100) + Multiples(year, 400)
  {
    hide Multiples, DaysBeforeMonth, DaysIn, IsLeap;
    if year == 0 {
      NoMultiples();
    } else {
      DaysBeforeYearIs(year - 1);
      YearLength(year - 1);
      LeapDay(year - 1);
    }
  }

  lemma NoMultiples()
    ensures Multiples(0, 4) == Multiples(0, 100) == Multiples(0, 400) == 0
  {
  }

  lemma LeapDay(year: nat)
    ensures Multiples(year + 1, 4) - Multiples(year + 1, 100) + Multiples(year + 1, 400)
         == Multiples(year, 4) - Multiples(year, 100) + Multiples(year, 400) + if IsLeap(year) then 1 else 0
  {
    hide Multiples;
    NextMultiple4(year);
    NextMultiple100(year);
    NextMultiple400(year);
    MultipleOf(year);
  }

  lemma NextMultiple4(year: int)
    ensures Multiples(year + 1, 4) == Multiples(year, 4) + if year % 4 == 0 then 1 else 0
  {
  }

  lemma NextMultiple100(year: int)
    ensures Multiples(year + 1, 100) == Multiples(year, 100) + if year % 100 == 0 then 1 else 0
  {
  }

  lemma NextMultiple400(year: int)
    ensures Multiples(year + 1, 400) == Multiples(year, 400) + if year % 400 == 0 then 1 else 0
  {
  }

  lemma MultipleOf(year: int)
    ensures year % 100 == 0 ==> year % 4 == 0
    ensures year % 400 == 0 ==> year % 100 == 0
  {
    if year % 100 == 0 {
      var c := year / 100;
      assert year == 4 * (25 * c);
    }
    if year % 400 == 0 {
      var c := year / 400;
      assert year == 100 * (4 * c);
    }
  }

  // ---------------------------------------------------------------------------
  // The text
  // ---------------------------------------------------------------------------

  /** One conversion of the format string: a zero-padded number and the text that follows it. */
  datatype Item = Item(width: nat, after: string)

  /** "%Y-%m-%dT%H:%M:%S%.6f+00:00". */
  const SHAPE: seq<Item> :=
    [Item(4, "-"), Item(2, "-"), Item(2, "T"), Item(2, ":"), Item(2, ":"), Item(2, "."), Item(6, "+00:00")]

  function Values(t: Instant): seq<int> {
    [t.year, t.month, t.day, t.hour, t.minute, t.second, t.nanos / 1000]
  }

  function Digit(n: int): char {
    '0' + (n % 10) as char
  }

  function Digits(n: int, width: nat): (s: string)
    ensures |s| == width
    decreases width
  {
    if width == 0 then "" else Digits(n / 10, width - 1) + [Digit(n)]
  }

  function Print(shape: seq<Item>, values: seq<int>): string
    requires |shape| == |values|
    decreases |shape|
  {
    if shape == [] then ""
    else Digits(values[0], shape[0].width) + shape[0].after + Print(shape[1..], values[1..])
  }

  function FormatCanonicalTs(t: Instant): string
    requires InRange(t)
  {
    Print(SHAPE, Values(t))
  }

  function Pow10(n: nat): int {
    if n == 0 then 1 else 10 * Pow10(n - 1)
  }

  /** Every number has as many digits as it is given room for. */
  predicate Fits(shape: seq<Item>, values: seq<int>) {
    |shape| == |values| && forall i :: 0 <= i < |shape| ==> 0 <= values[i] < Pow10(shape[i].width)
  }

  lemma InRangeFits(t: Instant)
    requires InRange(t)
    ensures Fits(SHAPE, Values(t))
  {
    assert Pow10(2) == 100;
    assert Pow10(4) == 10000;
    assert Pow10(6) == 1000000;
  }

  function Length(shape: seq<Item>): nat
    decreases |shape|
  {
    if shape == [] then 0 else shape[0].width + |shape[0].after| + Length(shape[1..])
  }

  lemma {:induction false} PrintedLength(shape: seq<Item>, values: seq<int>)
    requires |shape| == |values|
    ensures |Print(shape, values)| == Length(shape)
    decreases |shape|
  {
    if shape == [] {
    } else {
      PrintedLength(shape[1..], values[1..]);
    }
  }

  /** Every instant in range takes 32 characters. */
  lemma TimestampLength(t: Instant)
    requires InRange(t)
    ensures |FormatCanonicalTs(t)| == 32
  {
    PrintedLength(SHAPE, Values(t));
    assert Length(SHAPE[6..]) == 12;
    assert SHAPE[5..][1..] == SHAPE[6..] && SHAPE[4..][1..] == SHAPE[5..] && SHAPE[3..][1..] == SHAPE[4..];
    assert Length(SHAPE[3..]) == 21;
    assert SHAPE[2..][1..] == SHAPE[3..] && SHAPE[1..][1..] == SHAPE[2..];
  }

  /** The text, piece by piece. */
  lemma TimestampText(t: Instant)
    requires InRange(t)
    ensures FormatCanonicalTs(t)
         == Digits(t.year, 4) + "-" + Digits(t.month, 2) + "-" + Digits(t.day, 2)
          + "T" + Digits(t.hour, 2) + ":" + Digits(t.minute, 2) + ":" + Digits(t.second, 2)
          + "." + Digits(t.nanos / 1000, 6) + "+00:00"
  {
    hide Digits, InRange, Print;
    var v := Values(t);
    assert v[0..] == v && SHAPE[0..] == SHAPE;
    PrintTail(v, 0);
    PrintTail(v, 1);
    PrintTail(v, 2);
    TimeOfDayText(v);
  }

  lemma TimeOfDayText(v: seq<int>)
    requires |v| == 7
    ensures Print(SHAPE[3..], v[3..])
         == Digits(v[3], 2) + ":" + Digits(v[4], 2) + ":" + Digits(v[5], 2) + "." + Digits(v[6], 6) + "+00:00"
  {
    hide Digits;
    assert Print(SHAPE[7..], v[7..]) == "";
    hide Print;
    PrintTail(v, 3);
    PrintTail(v, 4);
    PrintTail(v, 5);
    PrintTail(v, 6);
  }

  lemma PrintTail(v: seq<int>, i: nat)
    requires |v| == 7 && i < 7
    ensures Print(SHAPE[i..], v[i..])
         == Digits(v[i], SHAPE[i].width) + SHAPE[i].after + Print(SHAPE[i + 1..], v[i + 1..])
  {
    hide Digits;
    assert SHAPE[i..][1..] == SHAPE[i + 1..] && v[i..][1..] == v[i + 1..];
  }

  /** Separators and offset stand at fixed places. */
  lemma FixedCharacters(t: Instant)
    requires InRange(t)
    ensures var s := FormatCanonicalTs(t);
      && |s| == 32
      && s[4] == '-' && s[7] == '-' && s[10] == 'T' && s[13] == ':' && s[16] == ':' && s[19] == '.'
      && s[26..] == "+00:00"
  {
    TimestampText(t);
    Placed(Digits(t.year, 4), Digits(t.month, 2), Digits(t.day, 2), Digits(t.hour, 2), Digits(t.minute, 2),
           Digits(t.second, 2), Digits(t.nanos / 1000, 6));
  }

  lemma Placed(year: string, month: string, day: string, hour: string, minute: string, second: string, micros: string)
    requires |year| == 4 && |month| == |day| == |hour| == |minute| == |second| == 2 && |micros| == 6
    ensures var s := year + "-" + month + "-" + day
                   + "T" + hour + ":" + minute + ":" + second + "." + micros + "+00:00";
      && |s| == 32
      && s[4] == '-' && s[7] == '-' && s[10] == 'T' && s[13] == ':' && s[16] == ':' && s[19] == '.'
      && s[26..] == "+00:00"
  {
    var date := year + "-" + month + "-" + day;
    var time := "T" + hour + ":" + minute + ":" + second;
    var head := date + time + ("." + micros);
    assert |date| == 10 && date[4] == '-' && date[7] == '-';
    assert |time| == 9 && time[0] == 'T' && time[3] == ':' && time[6] == ':';
    assert |head| == 26 && head[..10] == date && head[10..19] == time && head[19] == '.';
    assert year + "-" + month + "-" + day + "T" + hour + ":" + minute + ":" + second + "." + micros + "+00:00"
        == head + "+00:00";
  }

  /** Two decimal digits as they are written. */
  lemma TwoDigits(n: int)
    requires 0 <= n < 100
    ensures Digits(n, 2) == [('0' + (n / 10) as char), ('0' + (n % 10) as char)]
  {
    assert Digits(n / 10 / 10, 0) == "";
    assert Digits(n / 10, 1) == [Digit(n / 10)];
  }

  // ---------------------------------------------------------------------------
  // Reading it back
  // ---------------------------------------------------------------------------

  predicate IsDigit(c: char) {
    '0' <= c <= '9'
  }

  function NumberOf(s: string): int
    requires forall i :: 0 <= i < |s| ==> IsDigit(s[i])
  {
    if s == "" then 0 else 10 * NumberOf(s[..|s| - 1]) + (s[|s| - 1] as int - '0' as int)
  }

  function Read(shape: seq<Item>, s: string): Option<seq<int>>
    decreases |shape|
  {
    if shape == [] then (if s == "" then Some([]) else None)
    else
      var w, a := shape[0].width, shape[0].after;
      if |s| < w + |a| || s[w..w + |a|] != a || exists i :: 0 <= i < w && !IsDigit(s[i]) then None
      else
        match Read(shape[1..], s[w + |a|..])
        case None => None
        case Some(values) => Some([NumberOf(s[..w])] + values)
  }

  function ParseTs(s: string): Option<Instant> {
    match Read(SHAPE, s)
    case None => None
    case Some(v) =>
      if |v| != 7 then None
      else
        var t := Instant(v[0], v[1], v[2], v[3], v[4], v[5], v[6] * 1000);
        if InRange(t) then Some(t) else None
  }

  lemma {:induction false} DigitsRead(n: int, width: nat)
    requires 0 <= n < Pow10(width)
    ensures forall i :: 0 <= i < width ==> IsDigit(Digits(n, width)[i])
    ensures NumberOf(Digits(n, width)) == n
  {
    if width == 0 {
    } else {
      DigitsRead(n / 10, width - 1);
      var s := Digits(n, width);
      assert s[..width - 1] == Digits(n / 10, width - 1);
    }
  }

  lemma {:induction false} NumberPrints(s: string)
    requires forall i :: 0 <= i < |s| ==> IsDigit(s[i])
    ensures 0 <= NumberOf(s) < Pow10(|s|)
    ensures Digits(NumberOf(s), |s|) == s
  {
    if s == "" {
    } else {
      NumberPrints(s[..|s| - 1]);
      assert s == s[..|s| - 1] + [s[|s| - 1]];
    }
  }

  lemma {:induction false} ReadPrinted(shape: seq<Item>, values: seq<int>)
    requires Fits(shape, values)
    ensures Read(shape, Print(shape, values)) == Some(values)
    decreases |shape|
  {
    if shape == [] {
    } else {
      var w, a, s := shape[0].width, shape[0].after, Print(shape, values);
      DigitsRead(values[0], w);
      assert s[..w] == Digits(values[0], w);
      assert s[w..w + |a|] == a;
      assert s[w + |a|..] == Print(shape[1..], values[1..]);
      ReadPrinted(shape[1..], values[1..]);
      assert values == [values[0]] + values[1..];
    }
  }

  lemma {:induction false} PrintRead(shape: seq<Item>, s: string)
    requires Read(shape, s).Some?
    ensures Fits(shape, Read(shape, s).value)
    ensures Print(shape, Read(shape, s).value) == s
    decreases |shape|
  {
    if shape == [] {
    } else {
      var w, a := shape[0].width, shape[0].after;
      ReadStep(shape, s);
      var number, rest := NumberOf(s[..w]), Read(shape[1..], s[w + |a|..]).value;
      PrintRead(shape[1..], s[w + |a|..]);
      NumberPrints(s[..w]);
      hide Read, Digits, NumberOf, Pow10, Print;
      assert ([number] + rest)[1..] == rest;
      PrintStep(shape, [number] + rest);
    }
  }

  lemma ReadStep(shape: seq<Item>, s: string)
    requires shape != [] && Read(shape, s).Some?
    ensures var w, a := shape[0].width, shape[0].after;
      && w + |a| <= |s|
      && (forall i :: 0 <= i < w ==> IsDigit(s[i]))
      && s == s[..w] + a + s[w + |a|..]
      && Read(shape[1..], s[w + |a|..]).Some?
      && Read(shape, s).value == [NumberOf(s[..w])] + Read(shape[1..], s[w + |a|..]).value
  {
    hide NumberOf;
    var w, a := shape[0].width, shape[0].after;
    ThreeParts(s, w, w + |a|);
  }

  lemma ThreeParts(s: string, i: nat, j: nat)
    requires i <= j <= |s|
    ensures s == s[..i] + s[i..j] + s[j..]
  {
  }

  lemma PrintStep(shape: seq<Item>, values: seq<int>)
    requires shape != [] && |shape| == |values|
    ensures Print(shape, values)
         == Digits(values[0], shape[0].width) + shape[0].after + Print(shape[1..], values[1..])
  {
  }

  function Truncated(t: Instant): Instant {
    t.(nanos := t.nanos / 1000 * 1000)
  }

  /** A text parses back to its instant, less what is finer than a microsecond. */
  lemma TimestampRoundTrip(t: Instant)
    requires InRange(t)
    ensures ParseTs(FormatCanonicalTs(t)) == Some(Truncated(t))
  {
    hide Print, Read;
    InRangeFits(t);
    ReadPrinted(SHAPE, Values(t));
  }

  /** And every text the parser takes is the one text of its instant. */
  lemma ParsedTimestampPrints(s: string)
    requires ParseTs(s).Some?
    ensures FormatCanonicalTs(ParseTs(s).value) == s && Truncated(ParseTs(s).value) == ParseTs(s).value
  {
    hide Print, Read, InRange;
    PrintRead(SHAPE, s);
    var t, v := ParseTs(s).value, Read(SHAPE, s).value;
    ThousandTimes(v[6]);
    assert Values(t) == v;
  }

  lemma ThousandTimes(n: int)
    ensures n * 1000 / 1000 == n
  {
  }

  // ---------------------------------------------------------------------------
  // Order
  // ---------------------------------------------------------------------------

  predicate TextBefore(s: string, t: string) {
    Precedes(Utf16(s), Utf16(t))
  }

  lemma {:induction false} Utf16Append(s: string, t: string)
    ensures Utf16(s + t) == Utf16(s) + Utf16(t)
  {
    if s == "" {
      assert s + t == t;
    } else {
      assert (s + t)[1..] == s[1..] + t;
      Utf16Append(s[1..], t);
    }
  }

  lemma {:induction false} PrecedesAfterPrefix(a: seq<int>, b: seq<int>, x: seq<int>, y: seq<int>)
    requires |a| == |b|
    ensures Precedes(a + x, b + y) <==> Precedes(a, b) || (a == b && Precedes(x, y))
    decreases |a|
  {
    if a == [] {
      assert a + x == x && b + y == y;
    } else {
      assert (a + x)[1..] == a[1..] + x && (b + y)[1..] == b[1..] + y;
      PrecedesAfterPrefix(a[1..], b[1..], x, y);
      assert a == [a[0]] + a[1..] && b == [b[0]] + b[1..];
    }
  }

  lemma DigitCode(n: int)
    requires 0 <= n
    ensures Utf16([Digit(n)]) == [48 + n % 10]
  {
    assert [Digit(n)][1..] == "";
  }

  lemma {:induction false} DigitCodes(n: int, width: nat)
    requires 0 <= n
    ensures |Utf16(Digits(n, width))| == width
    ensures width > 0 ==> Utf16(Digits(n, width)) == Utf16(Digits(n / 10, width - 1)) + [48 + n % 10]
    decreases width
  {
    if width == 0 {
    } else {
      DigitCodes(n / 10, width - 1);
      Utf16Append(Digits(n / 10, width - 1), [Digit(n)]);
      DigitCode(n);
    }
  }

  lemma {:induction false} DigitsOrder(m: int, n: int, width: nat)
    requires 0 <= m < Pow10(width) && 0 <= n < Pow10(width)
    ensures TextBefore(Digits(m, width), Digits(n, width)) <==> m < n
    ensures Utf16(Digits(m, width)) == Utf16(Digits(n, width)) <==> m == n
    decreases width
  {
    if width == 0 {
    } else {
      DigitsOrder(m / 10, n / 10, width - 1);
      DigitCodes(m, width);
      DigitCodes(n, width);
      DigitCodes(m / 10, width - 1);
      DigitCodes(n / 10, width - 1);
      var a, b := Utf16(Digits(m / 10, width - 1)), Utf16(Digits(n / 10, width - 1));
      PrecedesAfterPrefix(a, b, [48 + m % 10], [48 + n % 10]);
      LastCode(a, b, 48 + m % 10, 48 + n % 10);
    }
  }

  lemma LastCode(a: seq<int>, b: seq<int>, x: int, y: int)
    requires |a| == |b|
    ensures Precedes([x], [y]) <==> x < y
    ensures a + [x] == b + [y] <==> a == b && x == y
  {
    assert !Precedes([x][1..], [y][1..]);
    if a + [x] == b + [y] {
      assert a == (a + [x])[..|a|] && b == (b + [y])[..|b|];
      assert x == (a + [x])[|a|] && y == (b + [y])[|b|];
    }
  }

  /** One list of numbers comes before another by the first number in which they differ. */
  predicate ValuesBefore(a: seq<int>, b: seq<int>)
    requires |a| == |b|
    decreases |a|
  {
    a != [] && (a[0] < b[0] || (a[0] == b[0] && ValuesBefore(a[1..], b[1..])))
  }

  lemma {:induction false} PrintOrder(shape: seq<Item>, a: seq<int>, b: seq<int>)
    requires Fits(shape, a) && Fits(shape, b)
    ensures TextBefore(Print(shape, a), Print(shape, b)) <==> ValuesBefore(a, b)
    decreases |shape|
  {
    if shape == [] {
    } else {
      PrintOrder(shape[1..], a[1..], b[1..]);
      ItemOrder(shape[0], a[0], b[0], Print(shape[1..], a[1..]), Print(shape[1..], b[1..]));
    }
  }

  lemma ItemOrder(item: Item, m: int, n: int, s: string, t: string)
    requires 0 <= m < Pow10(item.width) && 0 <= n < Pow10(item.width)
    ensures TextBefore(Digits(m, item.width) + item.after + s, Digits(n, item.width) + item.after + t)
       <==> m < n || (m == n && TextBefore(s, t))
  {
    var a, b, after := Digits(m, item.width), Digits(n, item.width), item.after;
    DigitsOrder(m, n, item.width);
    DigitCodes(m, item.width);
    DigitCodes(n, item.width);
    assert a + after + s == a + (after + s) && b + after + t == b + (after + t);
    Utf16Append(a, after + s);
    Utf16Append(b, after + t);
    Utf16Append(after, s);
    Utf16Append(after, t);
    PrecedesAfterPrefix(Utf16(a), Utf16(b), Utf16(after) + Utf16(s), Utf16(after) + Utf16(t));
    PrecedesAfterPrefix(Utf16(after), Utf16(after), Utf16(s), Utf16(t));
    PrecedesIsTotal(Utf16(after), Utf16(after));
  }

  lemma {:induction false} MonthsAdd(year: int, m: int, n: int)
    requires 1 <= m < n <= 13
    ensures DaysBeforeMonth(year, m) + DaysIn(year, m) <= DaysBeforeMonth(year, n)
    decreases n
  {
    if m == n - 1 {
    } else {
      MonthsAdd(year, m, n - 1);
    }
  }

  lemma YearIsLong(year: int)
    ensures 0 <= DaysBeforeMonth(year, 13)
  {
    MonthsAdd(year, 1, 13);
  }

  lemma {:induction false} YearsAdd(m: nat, n: nat)
    requires m < n
    ensures DaysBeforeYear(m) + DaysBeforeMonth(m, 13) <= DaysBeforeYear(n)
    decreases n
  {
    hide IsLeap, DaysIn, DaysBeforeMonth;
    if m == n - 1 {
    } else {
      YearIsLong(n - 1);
      YearsAdd(m, n - 1);
    }
  }

  function DayNumber(t: Instant): int
    requires InRange(t)
  {
    DaysBeforeYear(t.year) + DaysBeforeMonth(t.year, t.month) + t.day
  }

  lemma DateOrder(a: Instant, b: Instant)
    requires InRange(a) && InRange(b)
    requires a.year < b.year || (a.year == b.year && (a.month < b.month || (a.month == b.month && a.day < b.day)))
    ensures DayNumber(a) < DayNumber(b)
  {
    if a.year < b.year {
      YearsAdd(a.year, b.year);
      MonthsAdd(a.year, a.month, 13);
      if b.month > 1 {
        MonthsAdd(b.year, 1, b.month);
      }
    } else if a.month < b.month {
      MonthsAdd(a.year, a.month, b.month);
    }
  }

  lemma EarlierFields(a: Instant, b: Instant)
    requires InRange(a) && InRange(b) && ValuesBefore(Values(a), Values(b))
    ensures Micros(a) < Micros(b)
  {
    FieldOrder(a, b);
    if a.year != b.year || a.month != b.month || a.day != b.day {
      DateOrder(a, b);
    }
  }

  lemma FieldOrder(a: Instant, b: Instant)
    ensures ValuesBefore(Values(a), Values(b)) <==>
      || a.year < b.year
      || (a.year == b.year && (a.month < b.month || (a.month == b.month && (a.day < b.day
         || (a.day == b.day && TimeBefore(a, b))))))
  {
    var v, w := Values(a), Values(b);
    assert v[0..] == v && w[0..] == w;
    forall i | 0 <= i < 7
      ensures ValuesBefore(v[i..], w[i..]) <==> v[i] < w[i] || (v[i] == w[i] && ValuesBefore(v[i + 1..], w[i + 1..]))
    {
      assert v[i..][1..] == v[i + 1..] && w[i..][1..] == w[i + 1..];
    }
    assert !ValuesBefore(v[7..], w[7..]);
  }

  predicate TimeBefore(a: Instant, b: Instant) {
    || a.hour < b.hour
    || (a.hour == b.hour && (a.minute < b.minute || (a.minute == b.minute && (a.second < b.second
       || (a.second == b.second && a.nanos / 1000 < b.nanos / 1000)))))
  }

  lemma {:induction false} ValuesTotal(a: seq<int>, b: seq<int>)
    requires |a| == |b|
    ensures ValuesBefore(a, b) || a == b || ValuesBefore(b, a)
    decreases |a|
  {
    if a == [] {
    } else {
      ValuesTotal(a[1..], b[1..]);
      assert a == [a[0]] + a[1..] && b == [b[0]] + b[1..];
    }
  }

  /** The order of the texts is the order of time, to the microsecond. */
  lemma TextOrderIsTimeOrder(a: Instant, b: Instant)
    requires InRange(a) && InRange(b)
    ensures TextBefore(FormatCanonicalTs(a), FormatCanonicalTs(b)) <==> Micros(a) < Micros(b)
    ensures FormatCanonicalTs(a) == FormatCanonicalTs(b) <==> Micros(a) == Micros(b)
  {
    InRangeFits(a);
    InRangeFits(b);
    PrintOrder(SHAPE, Values(a), Values(b));
    ValuesTotal(Values(a), Values(b));
    if ValuesBefore(Values(a), Values(b)) {
      EarlierFields(a, b);
      PrecedesIsTotal(Utf16(FormatCanonicalTs(a)), Utf16(FormatCanonicalTs(b)));
    } else if ValuesBefore(Values(b), Values(a)) {
      EarlierFields(b, a);
      PrintOrder(SHAPE, Values(b), Values(a));
      PrecedesIsTotal(Utf16(FormatCanonicalTs(b)), Utf16(FormatCanonicalTs(a)));
    } else {
      SameFields(a, b);
    }
  }

  lemma SameFields(a: Instant, b: Instant)
    requires InRange(a) && InRange(b) && Values(a) == Values(b)
    ensures Micros(a) == Micros(b) && FormatCanonicalTs(a) == FormatCanonicalTs(b)
  {
    var v, w := Values(a), Values(b);
    assert v[0] == w[0] && v[1] == w[1] && v[2] == w[2] && v[3] == w[3] && v[4] == w[4] && v[5] == w[5] && v[6] == w[6];
  }

  // ---------------------------------------------------------------------------
  // The newest record
  // ---------------------------------------------------------------------------

  /** localeCompare, whose result depends on the reader's locale. */
  type Compare = (string, string) -> int

  /** It is a consistent comparison, as sort demands. */
  ghost predicate Collates(compare: Compare) {
    && (forall s, t :: compare(s, t) < 0 <==> compare(t, s) > 0)
    && (forall s, t, u :: compare(s, t) <= 0 && compare(t, u) <= 0 ==> compare(s, u) <= 0)
  }

  /** The same characters at the same places, but for digits. */
  predicate SameShape(s: string, t: string) {
    |s| == |t| && forall i :: 0 <= i < |s| ==> s[i] == t[i] || (IsDigit(s[i]) && IsDigit(t[i]))
  }

  /** Whatever the locale, texts of one shape are ordered by the first digit in which they differ. */
  ghost predicate OrdersDigits(compare: Compare) {
    forall s, t :: SameShape(s, t) ==> (compare(s, t) < 0 <==> TextBefore(s, t))
  }

  /** Comparing code units is one such comparison. */
  function CompareUnits(s: string, t: string): int {
    if TextBefore(s, t) then -1 else if TextBefore(t, s) then 1 else 0
  }

  lemma CompareUnitsCollates()
    ensures Collates(CompareUnits) && OrdersDigits(CompareUnits)
  {
    forall s, t ensures CompareUnits(s, t) < 0 <==> CompareUnits(t, s) > 0 {
      PrecedesIsTotal(Utf16(s), Utf16(t));
    }
    forall s, t, u | CompareUnits(s, t) <= 0 && CompareUnits(t, u) <= 0 ensures CompareUnits(s, u) <= 0 {
      var a, b, c := Utf16(s), Utf16(t), Utf16(u);
      PrecedesIsTotal(a, b);
      PrecedesIsTotal(b, c);
      PrecedesIsTotal(c, a);
      NotBeforeIsTransitive(a, b, c);
    }
  }

  /** At or before is transitive. */
  lemma NotBeforeIsTransitive(a: seq<int>, b: seq<int>, c: seq<int>)
    requires !Precedes(b, a) && !Precedes(c, b)
    ensures !Precedes(c, a)
  {
    PrecedesIsTotal(a, b);
    PrecedesIsTotal(b, c);
    PrecedesIsTotal(a, c);
    if Precedes(c, a) && a != b {
      PrecedesIsTransitive(c, a, b);
    }
  }

  lemma ShapesJoin(a: string, b: string, mid: string, s: string, t: string)
    requires SameShape(a, b) && SameShape(s, t)
    ensures SameShape(a + mid + s, b + mid + t)
  {
  }

  lemma {:induction false} PrintedShape(shape: seq<Item>, a: seq<int>, b: seq<int>)
    requires Fits(shape, a) && Fits(shape, b)
    ensures SameShape(Print(shape, a), Print(shape, b))
    decreases |shape|
  {
    if shape == [] {
    } else {
      PrintedShape(shape[1..], a[1..], b[1..]);
      var w := shape[0].width;
      DigitsRead(a[0], w);
      DigitsRead(b[0], w);
      assert SameShape(Digits(a[0], w), Digits(b[0], w));
      hide SameShape, Digits;
      ShapesJoin(Digits(a[0], w), Digits(b[0], w), shape[0].after,
                 Print(shape[1..], a[1..]), Print(shape[1..], b[1..]));
    }
  }

  lemma CompareIsTimeOrder(compare: Compare, a: Instant, b: Instant)
    requires OrdersDigits(compare) && InRange(a) && InRange(b)
    ensures compare(FormatCanonicalTs(a), FormatCanonicalTs(b)) < 0 <==> Micros(a) < Micros(b)
  {
    InRangeFits(a);
    InRangeFits(b);
    PrintedShape(SHAPE, Values(a), Values(b));
    TextOrderIsTimeOrder(a, b);
    hide Print, Micros, TextBefore, InRange, SameShape;
    assert SameShape(FormatCanonicalTs(a), FormatCanonicalTs(b));
  }

  /** A record as the overlay sorts it: signed_at may be missing, and then counts as the empty text. */
  datatype Signed<T> = Signed(signedAt: Option<string>, rest: T)

  function SortText<T>(r: Signed<T>): string {
    match r.signedAt case None => "" case Some(s) => s
  }

  function InsertNewestFirst<T>(compare: Compare, r: Signed<T>, sorted: seq<Signed<T>>): seq<Signed<T>> {
    if sorted == [] || compare(SortText(sorted[0]), SortText(r)) <= 0 then [r] + sorted
    else [sorted[0]] + InsertNewestFirst(compare, r, sorted[1..])
  }

  /** A stable sort by (a, b) => compare(b, a). */
  function NewestFirst<T>(compare: Compare, records: seq<Signed<T>>): (sorted: seq<Signed<T>>)
    ensures records != [] ==> sorted != []
  {
    if records == [] then [] else InsertNewestFirst(compare, records[0], NewestFirst(compare, records[1..]))
  }

  /** The record shown is the first of those no other record's text exceeds. */
  lemma {:induction false} ShownIsFirstOfGreatest<T>(compare: Compare, records: seq<Signed<T>>) returns (k: nat)
    requires Collates(compare) && records != []
    ensures k < |records| && NewestFirst(compare, records)[0] == records[k]
    ensures forall i :: 0 <= i < |records| ==> compare(SortText(records[i]), SortText(records[k])) <= 0
    ensures forall i :: 0 <= i < k ==> compare(SortText(records[i]), SortText(records[k])) < 0
  {
    hide NewestFirst, SortText;
    var first := SortText(records[0]);
    assert !(compare(first, first) > 0);
    NewestHead(compare, records);
    if |records| == 1 {
      k := 0;
    } else {
      var j := ShownIsFirstOfGreatest(compare, records[1..]);
      var best := SortText(records[1..][j]);
      if compare(best, first) > 0 {
        k := j + 1;
      } else {
        k := 0;
        forall i | 1 <= i < |records|
          ensures compare(SortText(records[i]), first) <= 0
        {
          assert records[i] == records[1..][i - 1];
          assert compare(SortText(records[i]), best) <= 0;
        }
      }
    }
  }

  lemma NewestHead<T>(compare: Compare, records: seq<Signed<T>>)
    requires records != []
    ensures NewestFirst(compare, records)[0]
         == if |records| == 1 || compare(SortText(NewestFirst(compare, records[1..])[0]), SortText(records[0])) <= 0
            then records[0]
            else NewestFirst(compare, records[1..])[0]
  {
    hide SortText;
  }

  /** So it was signed no earlier, to the microsecond, than any other record, and ties go to the first. */
  lemma NewestRecordIsShown<T>(compare: Compare, records: seq<Signed<T>>, times: seq<Instant>) returns (k: nat)
    requires Collates(compare) && OrdersDigits(compare)
    requires records != [] && |times| == |records|
    requires forall i :: 0 <= i < |times| ==>
      InRange(times[i]) && records[i].signedAt == Some(FormatCanonicalTs(times[i]))
    ensures k < |records| && NewestFirst(compare, records)[0] == records[k]
    ensures forall i :: 0 <= i < |times| ==> Micros(times[i]) <= Micros(times[k])
    ensures forall i :: 0 <= i < k ==> Micros(times[i]) < Micros(times[k])
  {
    hide InRange, FormatCanonicalTs, Micros, NewestFirst, OrdersDigits;
    k := ShownIsFirstOfGreatest(compare, records);
    forall i | 0 <= i < |times|
      ensures Micros(times[i]) <= Micros(times[k])
      ensures i < k ==> Micros(times[i]) < Micros(times[k])
    {
      CompareIsTimeOrder(compare, times[k], times[i]);
      CompareIsTimeOrder(compare, times[i], times[k]);
    }
  }
}
