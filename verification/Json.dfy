/**
 JSON values, their compact text, and a reader that inverts it. Text is a sequence of Unicode scalar
 values. A number is represented by the text it prints as.
 */
module Json {
  import opened Bytes

  datatype Json =
    | Undefined
    | NonFinite
    | Null
    | Bool(b: bool)
    | Num(text: string)
    | Str(s: string)
    | Arr(items: seq<Json>)
    | Obj(fields: seq<Field>)

  datatype Field = Field(key: string, val: Json)

  // ---------------------------------------------------------------------------
  // Printing
  // ---------------------------------------------------------------------------

  function HexDigit(n: nat): char
    requires n < 16
  {
    if n < 10 then (48 + n) as char else (87 + n) as char
  }

  /** Quote, backslash and the control characters are escaped; nothing else is. */
  function EscapeChar(c: char): string {
    if c == '\"' then "\\\""
    else if c == '\\' then "\\\\"
    else if c as int == 8 then "\\b"
    else if c as int == 9 then "\\t"
    else if c as int == 10 then "\\n"
    else if c as int == 12 then "\\f"
    else if c as int == 13 then "\\r"
    else if c as int < 32 then "\\u00" + [HexDigit(c as int / 16), HexDigit(c as int % 16)]
    else [c]
  }

  function Escape(s: string): string {
    if s == "" then "" else EscapeChar(s[0]) + Escape(s[1..])
  }

  function Quote(s: string): string {
    "\"" + Escape(s) + "\""
  }

  function Print(v: Json): string
    decreases v, 1
  {
    match v
    case Null => "null"
    case Bool(b) => if b then "true" else "false"
    case Num(text) => text
    case Str(s) => Quote(s)
    case Arr(items) => "[" + PrintItems(items) + "]"
    case Obj(fields) => "{" + PrintFields(fields) + "}"
    case Undefined => ""
    case NonFinite => ""
  }

  function PrintItems(items: seq<Json>): string
    decreases items, 0
  {
    if items == [] then ""
    else if |items| == 1 then Print(items[0])
    else Print(items[0]) + "," + PrintItems(items[1..])
  }

  function PrintField(f: Field): string
    decreases f, 2
  {
    Quote(f.key) + ":" + Print(f.val)
  }

  function PrintFields(fields: seq<Field>): string
    decreases fields, 0
  {
    if fields == [] then ""
    else if |fields| == 1 then PrintField(fields[0])
    else PrintField(fields[0]) + "," + PrintFields(fields[1..])
  }

  predicate NumberChar(c: char) {
    '0' <= c <= '9' || c == '+' || c == '-' || c == '.' || c == 'e' || c == 'E'
  }

  predicate NumberText(s: string) {
    s != "" && forall k :: 0 <= k < |s| ==> NumberChar(s[k])
  }

  /** Values a JSON text can stand for. */
  predicate Printable(v: Json)
    decreases v
  {
    match v
    case Undefined => false
    case NonFinite => false
    case Num(text) => NumberText(text)
    case Arr(items) => forall x :: x in items ==> Printable(x)
    case Obj(fields) => forall f :: f in fields ==> Printable(f.val)
    case _ => true
  }

  // ---------------------------------------------------------------------------
  // Reading
  // ---------------------------------------------------------------------------

  datatype Parsed<+T> = Reject | Accept(value: T, rest: string)

  function HexVal(c: char): Option<nat> {
    if '0' <= c <= '9' then Some(c as int - 48)
    else if 'a' <= c <= 'f' then Some(c as int - 87)
    else if 'A' <= c <= 'F' then Some(c as int - 55)
    else None
  }

  function ReadUnicode(s: string): Parsed<char> {
    if |s| < 4 then Reject
    else
      match (HexVal(s[0]), HexVal(s[1]), HexVal(s[2]), HexVal(s[3]))
      case (Some(a), Some(b), Some(c), Some(d)) =>
        var code := 4096 * a + 256 * b + 16 * c + d;
        if code < 0xD800 then Accept(code as char, s[4..]) else Reject
      case _ => Reject
  }

  function ReadChar(s: string): (p: Parsed<char>)
    ensures p.Accept? ==> |p.rest| < |s|
  {
    if s == "" || s[0] == '\"' || (s[0] as int) < 32 then Reject
    else if s[0] != '\\' then Accept(s[0], s[1..])
    else if |s| == 1 then Reject
    else if s[1] == '\"' || s[1] == '\\' then Accept(s[1], s[2..])
    else if s[1] == 'b' then Accept(8 as char, s[2..])
    else if s[1] == 't' then Accept(9 as char, s[2..])
    else if s[1] == 'n' then Accept(10 as char, s[2..])
    else if s[1] == 'f' then Accept(12 as char, s[2..])
    else if s[1] == 'r' then Accept(13 as char, s[2..])
    else if s[1] == 'u' then ReadUnicode(s[2..])
    else Reject
  }

  /** Reads up to and including the closing quote. */
  function ReadChars(s: string): (p: Parsed<string>)
    ensures p.Accept? ==> |p.rest| < |s|
    decreases |s|
  {
    if s != "" && s[0] == '\"' then Accept("", s[1..])
    else
      match ReadChar(s)
      case Reject => Reject
      case Accept(c, rest) =>
        match ReadChars(rest)
        case Reject => Reject
        case Accept(t, rest') => Accept([c] + t, rest')
  }

  function NumberSpan(s: string): (n: nat)
    ensures n <= |s|
    ensures forall k :: 0 <= k < n ==> NumberChar(s[k])
    ensures n < |s| ==> !NumberChar(s[n])
  {
    if s == "" || !NumberChar(s[0]) then 0 else 1 + NumberSpan(s[1..])
  }

  function ReadValue(s: string): (p: Parsed<Json>)
    ensures p.Accept? ==> |p.rest| < |s|
    decreases |s|, 0
  {
    if s == "" then Reject
    else if "null" <= s then Accept(Null, s[4..])
    else if "true" <= s then Accept(Bool(true), s[4..])
    else if "false" <= s then Accept(Bool(false), s[5..])
    else if s[0] == '\"' then
      match ReadChars(s[1..])
      case Reject => Reject
      case Accept(t, rest) => Accept(Str(t), rest)
    else if s[0] == '[' then
      if |s| > 1 && s[1] == ']' then Accept(Arr([]), s[2..])
      else
        match ReadItems(s[1..])
        case Reject => Reject
        case Accept(items, rest) => Accept(Arr(items), rest)
    else if s[0] == '{' then
      if |s| > 1 && s[1] == '}' then Accept(Obj([]), s[2..])
      else
        match ReadFields(s[1..])
        case Reject => Reject
        case Accept(fields, rest) => Accept(Obj(fields), rest)
    else if NumberSpan(s) > 0 then Accept(Num(s[..NumberSpan(s)]), s[NumberSpan(s)..])
    else Reject
  }

  /** Reads a non-empty list of items up to and including the closing bracket. */
  function ReadItems(s: string): (p: Parsed<seq<Json>>)
    ensures p.Accept? ==> |p.rest| < |s|
    decreases |s|, 1
  {
    match ReadValue(s)
    case Reject => Reject
    case Accept(v, rest) =>
      if rest != "" && rest[0] == ']' then Accept([v], rest[1..])
      else if rest != "" && rest[0] == ',' then
        match ReadItems(rest[1..])
        case Reject => Reject
        case Accept(items, rest') => Accept([v] + items, rest')
      else Reject
  }

  function ReadField(s: string): (p: Parsed<Field>)
    ensures p.Accept? ==> |p.rest| < |s|
    decreases |s|, 1
  {
    if s == "" || s[0] != '\"' then Reject
    else
      match ReadChars(s[1..])
      case Reject => Reject
      case Accept(key, rest) =>
        if rest == "" || rest[0] != ':' then Reject
        else
          match ReadValue(rest[1..])
          case Reject => Reject
          case Accept(v, rest') => Accept(Field(key, v), rest')
  }

  function ReadFields(s: string): (p: Parsed<seq<Field>>)
    ensures p.Accept? ==> |p.rest| < |s|
    decreases |s|, 2
  {
    match ReadField(s)
    case Reject => Reject
    case Accept(f, rest) =>
      if rest != "" && rest[0] == '}' then Accept([f], rest[1..])
      else if rest != "" && rest[0] == ',' then
        match ReadFields(rest[1..])
        case Reject => Reject
        case Accept(fields, rest') => Accept([f] + fields, rest')
      else Reject
  }

  /** Reads a whole text. */
  function Parse(s: string): Option<Json> {
    match ReadValue(s)
    case Accept(v, "") => Some(v)
    case _ => None
  }

  // ---------------------------------------------------------------------------
  // The reader inverts the printer
  // ---------------------------------------------------------------------------

  lemma HexInverse(n: nat)
    requires n < 16
    ensures HexVal(HexDigit(n)) == Some(n)
  {
  }

  lemma ReadEscapedChar(c: char, rest: string)
    ensures EscapeChar(c) != "" && EscapeChar(c)[0] != '\"'
    ensures ReadChar(EscapeChar(c) + rest) == Accept(c, rest)
  {
    var n := c as int;
    if n < 32 {
      HexInverse(n / 16);
      HexInverse(n % 16);
      HexInverse(0);
    }
    var s := EscapeChar(c) + rest;
    assert s[|EscapeChar(c)|..] == rest;
    if |EscapeChar(c)| == 6 {
      assert s[2..][4..] == rest;
      assert s[2..][0] == '0' && s[2..][1] == '0';
      assert s[2..][2] == HexDigit(n / 16) && s[2..][3] == HexDigit(n % 16);
    }
  }

  lemma {:induction false} ReadEscaped(t: string, rest: string)
    ensures ReadChars(Escape(t) + "\"" + rest) == Accept(t, rest)
  {
    var tail := "\"" + rest;
    assert Escape(t) + "\"" + rest == Escape(t) + tail;
    if t == "" {
      assert Escape(t) + tail == tail && tail[1..] == rest;
    } else {
      var c, more := t[0], Escape(t[1..]) + "\"" + rest;
      assert Escape(t) + tail == EscapeChar(c) + more;
      ReadEscapedChar(c, more);
      ReadEscaped(t[1..], rest);
      assert t == [c] + t[1..];
    }
  }

  /** A number is only delimited by what follows it. */
  predicate Delimited(rest: string) {
    rest == "" || !NumberChar(rest[0])
  }

  lemma {:induction false} SpanOfNumber(text: string, rest: string)
    requires (forall k :: 0 <= k < |text| ==> NumberChar(text[k])) && Delimited(rest)
    ensures NumberSpan(text + rest) == |text|
  {
    if text == "" {
      assert text + rest == rest;
    } else {
      assert (text + rest)[1..] == text[1..] + rest;
      SpanOfNumber(text[1..], rest);
    }
  }

  lemma ReadPrintedNumber(text: string, rest: string)
    requires NumberText(text) && Delimited(rest)
    ensures ReadValue(Print(Num(text)) + rest) == Accept(Num(text), rest)
  {
    SpanOfNumber(text, rest);
    var s := text + rest;
    assert NumberChar(s[0]);
    assert s[..|text|] == text && s[|text|..] == rest;
  }

  lemma PrintStarts(v: Json)
    requires Printable(v)
    ensures Print(v) != "" && Print(v)[0] != ']'
  {
    if v.Num? {
      assert NumberChar(v.text[0]);
    }
  }

  lemma ReadPrintedWord(v: Json, rest: string)
    requires v.Null? || v.Bool?
    ensures ReadValue(Print(v) + rest) == Accept(v, rest)
  {
    var s := Print(v) + rest;
    assert s[|Print(v)|..] == rest && Print(v) <= s && s[0] == Print(v)[0];
  }

  lemma ReadArray(body: string, items: seq<Json>, rest: string)
    requires body != "" && body[0] != ']' && ReadItems(body) == Accept(items, rest)
    ensures ReadValue("[" + body) == Accept(Arr(items), rest)
  {
    hide ReadItems, ReadFields, ReadChars, NumberSpan;
    var s := "[" + body;
    assert s[0] == '[' && s[1..] == body && s[1] == body[0];
  }

  lemma ReadObject(body: string, fields: seq<Field>, rest: string)
    requires body != "" && body[0] != '}' && ReadFields(body) == Accept(fields, rest)
    ensures ReadValue("{" + body) == Accept(Obj(fields), rest)
  {
    hide ReadItems, ReadFields, ReadChars, NumberSpan;
    var s := "{" + body;
    assert s[0] == '{' && s[1..] == body && s[1] == body[0];
  }

  lemma ReadEmpty(rest: string)
    ensures ReadValue("[]" + rest) == Accept(Arr([]), rest)
    ensures ReadValue("{}" + rest) == Accept(Obj([]), rest)
  {
    hide ReadItems, ReadFields, ReadChars, NumberSpan;
    var s, t := "[]" + rest, "{}" + rest;
    assert s[0] == '[' && s[1] == ']' && s[2..] == rest;
    assert t[0] == '{' && t[1] == '}' && t[2..] == rest;
  }

  lemma ReadPrintedString(t: string, rest: string)
    ensures ReadValue(Print(Str(t)) + rest) == Accept(Str(t), rest)
  {
    hide ReadItems, ReadFields, ReadChars, NumberSpan, Escape;
    var s := Print(Str(t)) + rest;
    assert s[0] == '\"' && s[1..] == Escape(t) + "\"" + rest;
    ReadEscaped(t, rest);
  }

  lemma ReadPrintedArray(items: seq<Json>, rest: string)
    requires items != [] ==> Print(items[0]) != "" && Print(items[0])[0] != ']'
    requires items != [] ==> ReadItems(PrintItems(items) + "]" + rest) == Accept(items, rest)
    ensures ReadValue(Print(Arr(items)) + rest) == Accept(Arr(items), rest)
  {
    hide ReadValue, ReadItems;
    if items == [] {
      ReadEmpty(rest);
      assert Print(Arr(items)) + rest == "[]" + rest;
    } else {
      var body := PrintItems(items) + "]" + rest;
      assert Print(Arr(items)) + rest == "[" + body;
      assert body[0] == Print(items[0])[0];
      ReadArray(body, items, rest);
    }
  }

  lemma FieldsStart(fields: seq<Field>)
    requires fields != []
    ensures PrintFields(fields) != "" && PrintFields(fields)[0] == '\"'
  {
    assert PrintField(fields[0])[0] == '\"';
  }

  lemma ReadPrintedObject(fields: seq<Field>, rest: string)
    requires fields != [] ==> ReadFields(PrintFields(fields) + "}" + rest) == Accept(fields, rest)
    ensures ReadValue(Print(Obj(fields)) + rest) == Accept(Obj(fields), rest)
  {
    hide ReadValue, ReadFields;
    if fields == [] {
      ReadEmpty(rest);
      assert Print(Obj(fields)) + rest == "{}" + rest;
    } else {
      var body := PrintFields(fields) + "}" + rest;
      assert Print(Obj(fields)) + rest == "{" + body;
      FieldsStart(fields);
      assert body[0] == PrintFields(fields)[0];
      ReadObject(body, fields, rest);
    }
  }

  lemma {:induction false} ReadPrinted(v: Json, rest: string)
    requires Printable(v) && Delimited(rest)
    ensures ReadValue(Print(v) + rest) == Accept(v, rest)
    decreases v, 1
  {
    hide ReadValue, Print, ReadItems, ReadFields, PrintItems, PrintFields;
    match v
    case Null => ReadPrintedWord(v, rest);
    case Bool(b) => ReadPrintedWord(v, rest);
    case Num(text) => ReadPrintedNumber(text, rest);
    case Str(t) => ReadPrintedString(t, rest);
    case Arr(items) =>
      if items != [] {
        PrintStarts(items[0]);
        ReadPrintedItems(items, rest);
      }
      ReadPrintedArray(items, rest);
    case Obj(fields) =>
      if fields != [] {
        ReadPrintedFields(fields, rest);
      }
      ReadPrintedObject(fields, rest);
  }

  lemma {:induction false} ReadPrintedItems(items: seq<Json>, rest: string)
    requires items != [] && forall x :: x in items ==> Printable(x)
    ensures ReadItems(PrintItems(items) + "]" + rest) == Accept(items, rest)
    decreases items, 0
  {
    hide ReadValue, Print;
    var v := items[0];
    if |items| == 1 {
      var after := "]" + rest;
      assert PrintItems(items) + "]" + rest == Print(v) + after;
      ReadPrinted(v, after);
      assert after[1..] == rest && [v] == items;
    } else {
      var more := PrintItems(items[1..]) + "]" + rest;
      var after := "," + more;
      assert PrintItems(items) + "]" + rest == Print(v) + after;
      ReadPrinted(v, after);
      ReadPrintedItems(items[1..], rest);
      assert after[1..] == more && [v] + items[1..] == items;
    }
  }

  lemma QuotedThen(key: string, a: string, b: string)
    ensures Quote(key) + a + b == "\"" + (Escape(key) + "\"" + (a + b))
  {
  }

  lemma {:induction false} ReadPrintedField(f: Field, rest: string)
    requires Printable(f.val) && Delimited(rest)
    ensures ReadField(PrintField(f) + rest) == Accept(f, rest)
    decreases f, 2
  {
    hide ReadValue, Print, ReadChars, Escape;
    var value := Print(f.val) + rest;
    var afterKey := ":" + value;
    var key := Escape(f.key) + "\"" + afterKey;
    QuotedThen(f.key, ":" + Print(f.val), rest);
    assert ":" + Print(f.val) + rest == afterKey;
    assert PrintField(f) + rest == "\"" + key;
    assert ("\"" + key)[1..] == key && afterKey[1..] == value;
    ReadEscaped(f.key, afterKey);
    ReadPrinted(f.val, rest);
  }

  lemma {:induction false} ReadPrintedFields(fields: seq<Field>, rest: string)
    requires fields != [] && forall f :: f in fields ==> Printable(f.val)
    ensures ReadFields(PrintFields(fields) + "}" + rest) == Accept(fields, rest)
    decreases fields, 0
  {
    hide ReadField, PrintField;
    var f := fields[0];
    if |fields| == 1 {
      var after := "}" + rest;
      assert PrintFields(fields) + "}" + rest == PrintField(f) + after;
      ReadPrintedField(f, after);
      assert after[1..] == rest && [f] == fields;
    } else {
      var more := PrintFields(fields[1..]) + "}" + rest;
      var after := "," + more;
      assert PrintFields(fields) + "}" + rest == PrintField(f) + after;
      ReadPrintedField(f, after);
      ReadPrintedFields(fields[1..], rest);
      assert after[1..] == more && [f] + fields[1..] == fields;
    }
  }

  /** Printing loses nothing. */
  lemma ParsePrinted(v: Json)
    requires Printable(v)
    ensures Parse(Print(v)) == Some(v)
  {
    ReadPrinted(v, "");
    assert Print(v) + "" == Print(v);
  }
}
