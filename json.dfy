/**
 * Values as `JSON.parse` produces them (numbers restricted to integers), the
 * string quoting of `JSON.stringify` (RFC 8259 section 7 escaping as
 * ECMAScript's QuoteJSONString performs it), and the JavaScript coercions the
 * application applies to property values: `String(v)`, `Number(v)`,
 * truthiness and `v ?? ''`.
 */
module Json {
  import opened Wrappers
  import opened Text

  /** A parsed JSON value; object members are listed in enumeration order, with distinct names. */
  datatype Value =
    | JNull
    | JBool(b: bool)
    | JNumber(n: int)
    | JString(s: string)
    | JArray(items: seq<Value>)
    | JObject(members: seq<(string, Value)>)

  /** The value of member `name`, if there is one. */
  function Get(members: seq<(string, Value)>, name: string): (r: Option<Value>)
    ensures r.Some? <==> exists k :: 0 <= k < |members| && members[k].0 == name
  {
    if members == [] then None
    else if members[0].0 == name then Some(members[0].1)
    else Get(members[1..], name)
  }

  /** Property access `v[name]` on a value other than null; `None` stands for `undefined`. */
  function Property(v: Value, name: string): Option<Value> {
    if v.JObject? then Get(v.members, name) else None
  }

  /** JavaScript truthiness of a possibly undefined value. */
  predicate Truthy(v: Option<Value>) {
    match v
    case None => false
    case Some(JNull) => false
    case Some(JBool(b)) => b
    case Some(JNumber(n)) => n != 0
    case Some(JString(s)) => s != ""
    case Some(_) => true
  }

  /** `v ?? ''`: null and undefined become the empty string. */
  function OrEmpty(v: Option<Value>): (r: Value)
    ensures r != JNull
  {
    if v.None? || v.value == JNull then JString("") else v.value
  }

  // ---------------------------------------------------------------------------
  // JSON.stringify

  function HexLower(d: nat): char
    requires d < 16
  {
    if d < 10 then (('0' as int) + d) as char else (('a' as int) + d - 10) as char
  }

  /** The escape `JSON.stringify` writes for one character of a string. */
  function EscapeChar(c: char): (r: string)
    ensures |r| >= 1 && forall k :: 0 <= k < |r| ==> r[k] >= ' '
  {
    if c == '"' then "\\\""
    else if c == '\\' then "\\\\"
    else if c == '\U{8}' then "\\b"
    else if c == '\t' then "\\t"
    else if c == '\n' then "\\n"
    else if c == '\U{C}' then "\\f"
    else if c == '\r' then "\\r"
    else if c < ' ' then "\\u00" + [HexLower((c as int) / 16), HexLower((c as int) % 16)]
    else [c]
  }

  function EscapeAll(s: string): (r: string)
    ensures forall k :: 0 <= k < |r| ==> r[k] >= ' '
  {
    if s == [] then "" else EscapeChar(s[0]) + EscapeAll(s[1..])
  }

  /** `JSON.stringify` of a string: the escaped characters between double quotes. */
  function Quote(s: string): (r: string)
    ensures |r| >= 2 && r[0] == '"' && r[|r| - 1] == '"'
    ensures forall k :: 0 <= k < |r| ==> r[k] >= ' '
  {
    "\"" + EscapeAll(s) + "\""
  }

  /** `JSON.stringify(v)`; its text never holds a control character such as a line feed. */
  function Stringify(v: Value): (r: string)
    ensures forall k :: 0 <= k < |r| ==> r[k] >= ' '
    decreases v
  {
    match v
    case JNull => "null"
    case JBool(b) => if b then "true" else "false"
    case JNumber(n) => IntToDecimal(n)
    case JString(s) => Quote(s)
    case JArray(items) =>
      var parts := seq(|items|, i requires 0 <= i < |items| => Stringify(items[i]));
      NoControlInJoin(parts, ",");
      "[" + Join(parts, ",") + "]"
    case JObject(members) =>
      var parts := seq(|members|, i requires 0 <= i < |members| => Quote(members[i].0) + ":" + Stringify(members[i].1));
      NoControlInJoin(parts, ",");
      "{" + Join(parts, ",") + "}"
  }

  lemma {:induction false} NoControlInJoin(parts: seq<string>, sep: string)
    requires forall k :: 0 <= k < |sep| ==> sep[k] >= ' '
    requires forall p, k :: p in parts && 0 <= k < |p| ==> p[k] >= ' '
    ensures forall k :: 0 <= k < |Join(parts, sep)| ==> Join(parts, sep)[k] >= ' '
  {
    if |parts| > 1 {
      NoControlInJoin(parts[1..], sep);
      var r := Join(parts, sep);
      assert r == parts[0] + sep + Join(parts[1..], sep);
      forall k | 0 <= k < |r| ensures r[k] >= ' ' {
        if k < |parts[0]| { assert r[k] == parts[0][k]; }
        else if k < |parts[0]| + |sep| { assert r[k] == sep[k - |parts[0]|]; }
        else { assert r[k] == Join(parts[1..], sep)[k - |parts[0]| - |sep|]; }
      }
    } else if |parts| == 1 {
      assert parts[0] in parts;
    }
  }

  // ---------------------------------------------------------------------------
  // Reading a JSON string literal back (the inverse of Quote).

  function HexDigitValue(c: char): (r: Option<nat>)
    ensures r.Some? ==> r.value < 16
  {
    if '0' <= c <= '9' then Some((c as int) - ('0' as int))
    else if 'a' <= c <= 'f' then Some((c as int) - ('a' as int) + 10)
    else if 'A' <= c <= 'F' then Some((c as int) - ('A' as int) + 10)
    else None
  }

  /** The code point of four hexadecimal digits, if they are digits and name a character (not a surrogate). */
  function Hex4(h: string): Option<char>
    requires |h| == 4
  {
    match (HexDigitValue(h[0]), HexDigitValue(h[1]), HexDigitValue(h[2]), HexDigitValue(h[3]))
    case (Some(a), Some(b), Some(c), Some(d)) =>
      var n := ((a * 16 + b) * 16 + c) * 16 + d;
      if 0xD800 <= n < 0xE000 then None else Some(n as char)
    case _ => None
  }

  /** The characters denoted by the text between the quotes of a JSON string literal. */
  function Unescape(t: string): Option<string> {
    if t == [] then Some("")
    else if t[0] == '"' || t[0] < ' ' then None
    else if t[0] != '\\' then
      match Unescape(t[1..]) case Some(r) => Some([t[0]] + r) case None => None
    else if |t| < 2 then None
    else
      var e := t[1];
      var simple :=
        if e == '"' then Some('"') else if e == '\\' then Some('\\') else if e == '/' then Some('/')
        else if e == 'b' then Some('\U{8}') else if e == 'f' then Some('\U{C}') else if e == 'n' then Some('\n')
        else if e == 'r' then Some('\r') else if e == 't' then Some('\t') else None;
      if simple.Some? then
        match Unescape(t[2..]) case Some(r) => Some([simple.value] + r) case None => None
      else if e == 'u' && |t| >= 6 then
        match (Hex4(t[2..6]), Unescape(t[6..]))
        case (Some(c), Some(r)) => Some([c] + r)
        case _ => None
      else None
  }

  /** Parses a JSON string literal. */
  function Unquote(q: string): Option<string> {
    if |q| >= 2 && q[0] == '"' && q[|q| - 1] == '"' then Unescape(q[1..|q| - 1]) else None
  }

  /** A control character without a short escape is read back from its `\u00XX` escape. */
  lemma UnicodeEscapeThenRest(c: char, rest: string)
    requires c < ' ' && c != '\U{8}' && c != '\t' && c != '\n' && c != '\U{C}' && c != '\r'
    ensures Unescape(EscapeChar(c) + rest) ==
      match Unescape(rest) case Some(r) => Some([c] + r) case None => None
  {
    var t := EscapeChar(c) + rest;
    var n := c as int;
    assert t[2..6] == ['0', '0', HexLower(n / 16), HexLower(n % 16)];
    assert t[6..] == rest;
    assert Hex4(t[2..6]) == Some(c);
  }

  /** A character with a two-character escape is read back from it. */
  lemma ShortEscapeThenRest(c: char, rest: string)
    requires c == '"' || c == '\\' || c == '\U{8}' || c == '\t' || c == '\n' || c == '\U{C}' || c == '\r'
    ensures Unescape(EscapeChar(c) + rest) ==
      match Unescape(rest) case Some(r) => Some([c] + r) case None => None
  {
    var t := EscapeChar(c) + rest;
    assert t[2..] == rest;
  }

  lemma EscapeCharThenRest(c: char, rest: string)
    ensures Unescape(EscapeChar(c) + rest) ==
      match Unescape(rest) case Some(r) => Some([c] + r) case None => None
  {
    if c < ' ' && c != '\U{8}' && c != '\t' && c != '\n' && c != '\U{C}' && c != '\r' {
      UnicodeEscapeThenRest(c, rest);
    } else if c == '"' || c == '\\' || c == '\U{8}' || c == '\t' || c == '\n' || c == '\U{C}' || c == '\r' {
      ShortEscapeThenRest(c, rest);
    } else {
      var t := EscapeChar(c) + rest;
      assert t[1..] == rest;
    }
  }

  /** Reading back what `JSON.stringify` wrote for a string gives the string. */
  lemma {:induction false} UnquoteQuote(s: string)
    ensures Unquote(Quote(s)) == Some(s)
  {
    var q := Quote(s);
    assert q[1..|q| - 1] == EscapeAll(s);
    UnescapeEscapeAll(s);
  }

  lemma {:induction false} UnescapeEscapeAll(s: string)
    ensures Unescape(EscapeAll(s)) == Some(s)
  {
    if s != [] {
      UnescapeEscapeAll(s[1..]);
      EscapeCharThenRest(s[0], EscapeAll(s[1..]));
      assert [s[0]] + s[1..] == s;
    }
  }

  // ---------------------------------------------------------------------------
  // String(v) and Number(v)

  /** `String(v)` for a possibly undefined value. */
  function ToJsString(v: Option<Value>): string {
    if v.None? then "undefined" else ValueToString(v.value)
  }

  function ValueToString(v: Value): string
    decreases v
  {
    match v
    case JNull => "null"
    case JBool(b) => if b then "true" else "false"
    case JNumber(n) => IntToDecimal(n)
    case JString(s) => s
    case JArray(items) =>
      // Array.prototype.join writes null elements as empty strings.
      Join(seq(|items|, i requires 0 <= i < |items| => if items[i] == JNull then "" else ValueToString(items[i])), ",")
    case JObject(_) => "[object Object]"
  }

  /**
   * `Number(s)` for a string, on the integer literals it accepts: after trimming, the empty
   * string is 0 and an optional sign followed by decimal digits is that integer.
   * `None` stands for NaN; the other numeric literal forms are not modelled and read as NaN.
   */
  function StringToNumber(s: string): (r: Option<int>) {
    var t := Trim(s);
    if t == "" then Some(0)
    else if (t[0] == '-' || t[0] == '+') && |t| > 1 && AllDigits(t[1..]) then
      var m: int := DigitsValue(t[1..]);
      Some(if t[0] == '-' then -m else m)
    else if AllDigits(t) then Some(DigitsValue(t))
    else None
  }

  /** `Number(v)` for a possibly undefined value; `None` is NaN. */
  function ToJsNumber(v: Option<Value>): Option<int> {
    match v
    case None => None
    case Some(JNull) => Some(0)
    case Some(JBool(b)) => Some(if b then 1 else 0)
    case Some(JNumber(n)) => Some(n)
    case Some(JString(s)) => StringToNumber(s)
    case Some(_) => StringToNumber(ToJsString(v))
  }

  lemma NumberOfDigits(d: string)
    requires |d| >= 1 && AllDigits(d)
    ensures StringToNumber(d) == Some(DigitsValue(d))
  {
    assert IsDigit(d[0]) && IsDigit(d[|d| - 1]);
    TrimUnchanged(d);
  }

  lemma NumberOfNegatedDigits(d: string)
    requires |d| >= 1 && AllDigits(d)
    ensures StringToNumber("-" + d) == Some(0 - DigitsValue(d) as int)
  {
    var s := "-" + d;
    assert s[1..] == d;
    assert IsDigit(s[|s| - 1]);
    TrimUnchanged(s);
  }

  /** `Number(String(n))` is `n`: the decimal rendering of an integer reads back as that integer. */
  lemma NumberOfDecimal(n: int)
    ensures StringToNumber(IntToDecimal(n)) == Some(n)
  {
    if n < 0 {
      var d := NatToDecimal(-n);
      assert IntToDecimal(n) == "-" + d;
      DecimalRoundTrip(-n);
      NumberOfNegatedDigits(d);
    } else {
      var d := NatToDecimal(n);
      assert IntToDecimal(n) == d;
      DecimalRoundTrip(n);
      NumberOfDigits(d);
    }
  }
}
