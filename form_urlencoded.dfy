/**
 * The application/x-www-form-urlencoded serializer of the WHATWG URL Standard
 * (section 5.2), which `URLSearchParams.prototype.toString` runs, and the
 * `decodeURIComponent` function of ECMAScript (section 19.2.6.2), which the
 * sidebar applies to one parameter value for display.
 */
module FormUrlEncoded {
  import opened Wrappers
  import opened Text

  /** A name-value pair of a `URLSearchParams` list. */
  type Param = (string, string)

  /** The UTF-8 bytes of one Unicode scalar value. */
  function Utf8(c: char): (r: seq<nat>)
    ensures 1 <= |r| <= 4 && forall k :: 0 <= k < |r| ==> r[k] < 256
  {
    var n := c as int;
    if n < 0x80 then [n]
    else if n < 0x800 then [0xC0 + n / 64, 0x80 + n % 64]
    else if n < 0x10000 then [0xE0 + n / 4096, 0x80 + (n / 64) % 64, 0x80 + n % 64]
    else [0xF0 + n / 262144, 0x80 + (n / 4096) % 64, 0x80 + (n / 64) % 64, 0x80 + n % 64]
  }

  function HexUpper(d: nat): char
    requires d < 16
  {
    if d < 10 then (('0' as int) + d) as char else (('A' as int) + d - 10) as char
  }

  /** `%XX` with upper-case hexadecimal digits, for every byte. */
  function PercentBytes(bytes: seq<nat>): (r: string)
    requires forall k :: 0 <= k < |bytes| ==> bytes[k] < 256
    ensures |r| == 3 * |bytes|
  {
    if bytes == [] then ""
    else "%" + [HexUpper(bytes[0] / 16), HexUpper(bytes[0] % 16)] + PercentBytes(bytes[1..])
  }

  predicate HexOrPercent(c: char) {
    c == '%' || ('0' <= c <= '9') || ('A' <= c <= 'F')
  }

  lemma {:induction false} PercentBytesChars(bytes: seq<nat>)
    requires forall k :: 0 <= k < |bytes| ==> bytes[k] < 256
    ensures forall k :: 0 <= k < |PercentBytes(bytes)| ==> HexOrPercent(PercentBytes(bytes)[k])
  {
    if bytes != [] {
      PercentBytesChars(bytes[1..]);
      var r := PercentBytes(bytes);
      var tail := PercentBytes(bytes[1..]);
      assert r == ['%', HexUpper(bytes[0] / 16), HexUpper(bytes[0] % 16)] + tail;
      forall k | 0 <= k < |r| ensures HexOrPercent(r[k]) {
        if k >= 3 { assert r[k] == tail[k - 3]; }
      }
    }
  }

  /** The characters the serializer leaves as they are: ASCII alphanumerics and `*-._`. */
  predicate Unreserved(c: char) {
    ('0' <= c <= '9') || ('A' <= c <= 'Z') || ('a' <= c <= 'z') || c == '*' || c == '-' || c == '.' || c == '_'
  }

  /** The serializer's output for one character: `+` for a space, the character itself when unreserved, else its UTF-8 bytes percent-encoded. */
  function EncodeChar(c: char): (r: string)
    ensures |r| >= 1 && IsAscii(r) && Excludes(r, '&') && Excludes(r, '=') && Excludes(r, '?') && Excludes(r, ' ')
  {
    if c == ' ' then "+" else if Unreserved(c) then [c] else PercentBytesChars(Utf8(c)); PercentBytes(Utf8(c))
  }

  /** The byte serializer applied to one name or value. */
  function Encode(s: string): (r: string)
    ensures IsAscii(r) && Excludes(r, '&') && Excludes(r, '=') && Excludes(r, '?') && Excludes(r, ' ')
    ensures |r| == 0 <==> |s| == 0
  {
    if s == [] then "" else EncodeChar(s[0]) + Encode(s[1..])
  }

  /** Names made of unreserved characters are serialized as they are. */
  lemma {:induction false} EncodePlain(s: string)
    requires forall k :: 0 <= k < |s| ==> Unreserved(s[k])
    ensures Encode(s) == s
  {
    if s != [] {
      EncodePlain(s[1..]);
      assert s == [s[0]] + s[1..];
    }
  }

  /** One `name=value` pair as the serializer writes it. */
  function EncodePair(p: Param): (r: string)
    ensures IsAscii(r) && Excludes(r, '&') && Excludes(r, '?')
  {
    Encode(p.0) + "=" + Encode(p.1)
  }

  function EncodePairs(params: seq<Param>): (r: seq<string>)
    ensures |r| == |params| && forall k :: 0 <= k < |r| ==> r[k] == EncodePair(params[k])
  {
    if params == [] then [] else [EncodePair(params[0])] + EncodePairs(params[1..])
  }

  /** The serialization of a parameter list: its encoded pairs joined by `&`. */
  function Serialize(params: seq<Param>): string {
    Join(EncodePairs(params), "&")
  }

  /** Serializing a list whose first pair is `p`: that pair, then `&` and the rest when there is a rest. */
  lemma SerializeCons(p: Param, rest: seq<Param>)
    ensures Serialize([p] + rest) == EncodePair(p) + (if rest == [] then "" else "&" + Serialize(rest))
  {
    assert ([p] + rest)[1..] == rest;
    assert EncodePairs([p] + rest) == [EncodePair(p)] + EncodePairs(rest);
  }

  /** A serialized parameter list is ASCII, so its JavaScript `length` is its number of characters. */
  lemma {:induction false} SerializeIsAscii(params: seq<Param>)
    ensures IsAscii(Serialize(params))
  {
    if |params| > 1 {
      SerializeIsAscii(params[1..]);
      SerializeCons(params[0], params[1..]);
    } else if |params| == 1 {
      SerializeCons(params[0], []);
    }
  }

  // ---------------------------------------------------------------------------
  // decodeURIComponent

  function HexValue(c: char): Option<nat> {
    if '0' <= c <= '9' then Some((c as int) - ('0' as int))
    else if 'A' <= c <= 'F' then Some((c as int) - ('A' as int) + 10)
    else if 'a' <= c <= 'f' then Some((c as int) - ('a' as int) + 10)
    else None
  }

  /** The byte of an escape `%XX` at the start of `t`, if there is one. */
  function EscapedByte(t: string): Option<nat> {
    if |t| >= 3 && t[0] == '%' then
      match (HexValue(t[1]), HexValue(t[2]))
      case (Some(h), Some(l)) => Some(h * 16 + l)
      case _ => None
    else None
  }

  /** The number of bytes of a UTF-8 sequence that starts with `b`, or 0 when `b` cannot start one. */
  function SequenceLength(b: nat): nat {
    if b < 0x80 then 1 else if 0xC0 <= b < 0xE0 then 2 else if 0xE0 <= b < 0xF0 then 3 else if 0xF0 <= b < 0xF8 then 4 else 0
  }

  /** The payload bits of a lead byte `b` that starts an `n`-byte sequence. */
  function LeadBits(b: nat, n: nat): int {
    if n == 1 then b else if n == 2 then b - 0xC0 else if n == 3 then b - 0xE0 else b - 0xF0
  }

  /** The `n - 1` continuation bytes of `n` escapes, accumulated into the code point, starting from `acc`. */
  function Continuation(t: string, count: nat, acc: int): Option<int>
    decreases count
  {
    if count == 0 then Some(acc)
    else match EscapedByte(t)
      case Some(b) =>
        if 0x80 <= b < 0xC0 then Continuation(t[3..], count - 1, acc * 64 + (b - 0x80)) else None
      case None => None
  }

  /** Whether an `n`-byte sequence may encode `cp`: not overlong, not a surrogate, at most U+10FFFF. */
  predicate ValidScalar(n: nat, cp: int) {
    && 0 <= cp <= 0x10FFFF && !(0xD800 <= cp < 0xE000)
    && (n == 2 ==> cp >= 0x80) && (n == 3 ==> cp >= 0x800) && (n == 4 ==> cp >= 0x10000)
  }

  /** `decodeURIComponent`; `None` stands for the URIError it throws on a malformed escape. */
  function DecodeUriComponent(t: string): Option<string>
    decreases |t|
  {
    if t == [] then Some("")
    else if t[0] != '%' then
      match DecodeUriComponent(t[1..]) case Some(r) => Some([t[0]] + r) case None => None
    else match EscapedByte(t)
      case None => None
      case Some(b) =>
        var n := SequenceLength(b);
        if n == 0 || |t| < 3 * n then None
        else match Continuation(t[3..], n - 1, LeadBits(b, n))
          case None => None
          case Some(cp) =>
            if !ValidScalar(n, cp) then None
            else match DecodeUriComponent(t[3 * n..]) case Some(r) => Some([cp as char] + r) case None => None
  }

  lemma HexRoundTrip(d: nat)
    requires d < 16
    ensures HexValue(HexUpper(d)) == Some(d)
  {
  }

  lemma EscapedByteOf(b: nat, rest: string)
    requires b < 256
    ensures EscapedByte(PercentBytes([b]) + rest) == Some(b)
  {
    HexRoundTrip(b / 16);
    HexRoundTrip(b % 16);
    var t := PercentBytes([b]) + rest;
    assert t[0] == '%' && t[1] == HexUpper(b / 16) && t[2] == HexUpper(b % 16);
  }

  lemma PercentBytesCons(bytes: seq<nat>)
    requires |bytes| >= 1 && forall k :: 0 <= k < |bytes| ==> bytes[k] < 256
    ensures PercentBytes(bytes) == PercentBytes([bytes[0]]) + PercentBytes(bytes[1..])
  {
  }

  /** Decoding the continuation escapes of a UTF-8 encoding rebuilds the code point. */
  lemma ContinuationOf(bytes: seq<nat>, rest: string, acc: int)
    requires forall k :: 0 <= k < |bytes| ==> 0x80 <= bytes[k] < 0xC0
    ensures Continuation(PercentBytes(bytes) + rest, |bytes|, acc) == Some(Accumulate(bytes, acc))
    decreases |bytes|
  {
    if bytes != [] {
      PercentBytesCons(bytes);
      var t := PercentBytes(bytes) + rest;
      assert t == PercentBytes([bytes[0]]) + (PercentBytes(bytes[1..]) + rest);
      EscapedByteOf(bytes[0], PercentBytes(bytes[1..]) + rest);
      assert t[3..] == PercentBytes(bytes[1..]) + rest;
      ContinuationOf(bytes[1..], rest, acc * 64 + (bytes[0] as int - 0x80));
    }
  }

  function Accumulate(bytes: seq<nat>, acc: int): int {
    if bytes == [] then acc else Accumulate(bytes[1..], acc * 64 + (bytes[0] as int - 0x80))
  }

  lemma Accumulate1(a: nat, x: int)
    ensures Accumulate([a], x) == x * 64 + (a as int - 0x80)
  {
    assert [a][1..] == [];
  }

  lemma Accumulate2(a: nat, b: nat, x: int)
    ensures Accumulate([a, b], x) == (x * 64 + (a as int - 0x80)) * 64 + (b as int - 0x80)
  {
    assert [a, b][1..] == [b];
    Accumulate1(b, x * 64 + (a as int - 0x80));
  }

  lemma Accumulate3(a: nat, b: nat, d: nat, x: int)
    ensures Accumulate([a, b, d], x) == ((x * 64 + (a as int - 0x80)) * 64 + (b as int - 0x80)) * 64 + (d as int - 0x80)
  {
    assert [a, b, d][1..] == [b, d];
    Accumulate2(b, d, x * 64 + (a as int - 0x80));
  }

  /** What a decoder needs of the UTF-8 encoding of a non-ASCII character: a lead byte announcing its length, continuation bytes, and the code point they rebuild. */
  predicate DecodableEncoding(u: seq<nat>, cp: int) {
    var n := |u|;
    && 2 <= n <= 4 && SequenceLength(u[0]) == n
    && (forall k :: 1 <= k < n ==> 0x80 <= u[k] < 0xC0)
    && ValidScalar(n, cp)
    && Accumulate(u[1..], LeadBits(u[0], n)) == cp
  }

  /** Dividing by 64 twice is dividing by 4096, and by 64 once more is dividing by 262144. */
  lemma DivTwice(n: nat)
    ensures n / 4096 == (n / 64) / 64
    ensures n / 262144 == (n / 4096) / 64
  {
  }

  lemma Utf8DecodesTwo(c: char)
    requires 0x80 <= c as int < 0x800
    ensures DecodableEncoding(Utf8(c), c as int)
  {
    var n := c as int;
    var u := Utf8(c);
    assert u == [0xC0 + n / 64, 0x80 + n % 64];
    assert u[1..] == [0x80 + n % 64];
    Accumulate1(0x80 + n % 64, n / 64);
  }

  lemma Utf8DecodesThree(c: char)
    requires 0x800 <= c as int < 0x10000
    ensures DecodableEncoding(Utf8(c), c as int)
  {
    var n := c as int;
    var u := Utf8(c);
    var a, b := 0x80 + (n / 64) % 64, 0x80 + n % 64;
    assert u == [0xE0 + n / 4096, a, b];
    assert u[1..] == [a, b];
    Accumulate2(a, b, n / 4096);
    DivTwice(n);
    assert (n / 4096) * 64 + (n / 64) % 64 == n / 64;
    assert (n / 64) * 64 + n % 64 == n;
  }

  lemma Utf8DecodesFour(c: char)
    requires 0x10000 <= c as int
    ensures DecodableEncoding(Utf8(c), c as int)
  {
    var n := c as int;
    var u := Utf8(c);
    var a, b, d := 0x80 + (n / 4096) % 64, 0x80 + (n / 64) % 64, 0x80 + n % 64;
    assert u == [0xF0 + n / 262144, a, b, d];
    assert u[1..] == [a, b, d];
    Accumulate3(a, b, d, n / 262144);
    DivTwice(n / 64);
    DivTwice(n);
    assert (n / 262144) * 64 + (n / 4096) % 64 == n / 4096;
    assert (n / 4096) * 64 + (n / 64) % 64 == n / 64;
    assert (n / 64) * 64 + n % 64 == n;
  }

  /** The UTF-8 encoding of every non-ASCII character can be decoded back to it. */
  lemma Utf8Decodes(c: char)
    requires c as int >= 0x80
    ensures DecodableEncoding(Utf8(c), c as int)
  {
    var n := c as int;
    if n < 0x800 {
      Utf8DecodesTwo(c);
    } else if n < 0x10000 {
      Utf8DecodesThree(c);
    } else {
      Utf8DecodesFour(c);
    }
  }

  lemma DecodeUnreserved(c: char, rest: string)
    requires c != '%'
    ensures DecodeUriComponent([c] + rest) ==
      match DecodeUriComponent(rest) case Some(r) => Some([c] + r) case None => None
  {
    assert ([c] + rest)[1..] == rest;
  }

  lemma DecodeAsciiEscape(c: char, rest: string)
    requires c as int < 0x80
    ensures DecodeUriComponent(PercentBytes([c as int]) + rest) ==
      match DecodeUriComponent(rest) case Some(r) => Some([c] + r) case None => None
  {
    var t := PercentBytes([c as int]) + rest;
    EscapedByteOf(c as int, rest);
    assert t[0] == '%' && t[3..] == rest;
    assert Continuation(t[3..], 0, c as int) == Some(c as int);
  }

  /** One escaped sequence at the head of `t` that decodes to `cp`: the decoder emits `cp` and goes on after it. */
  lemma DecodeSequenceStep(t: string, b: nat, n: nat, cp: int)
    requires |t| >= 3 && t[0] == '%' && EscapedByte(t) == Some(b)
    requires SequenceLength(b) == n && n > 0 && |t| >= 3 * n
    requires Continuation(t[3..], n - 1, LeadBits(b, n)) == Some(cp) && ValidScalar(n, cp)
    ensures DecodeUriComponent(t) ==
      match DecodeUriComponent(t[3 * n..]) case Some(r) => Some([cp as char] + r) case None => None
  {
  }

  lemma DecodeMultiByte(c: char, rest: string)
    requires c as int >= 0x80
    ensures DecodeUriComponent(PercentBytes(Utf8(c)) + rest) ==
      match DecodeUriComponent(rest) case Some(r) => Some([c] + r) case None => None
  {
    var u := Utf8(c);
    var n := |u|;
    var tail := PercentBytes(u[1..]) + rest;
    var t := PercentBytes(u) + rest;
    Utf8Decodes(c);
    PercentBytesCons(u);
    assert t == PercentBytes([u[0]]) + tail;
    EscapedByteOf(u[0], tail);
    assert |PercentBytes([u[0]])| == 3;
    assert t[3..] == tail;
    ContinuationOf(u[1..], rest, LeadBits(u[0], n));
    assert t[3 * n..] == rest;
    DecodeSequenceStep(t, u[0], n, c as int);
  }

  lemma DecodeEncodeChar(c: char, rest: string)
    requires c != ' '
    ensures DecodeUriComponent(EncodeChar(c) + rest) ==
      match DecodeUriComponent(rest) case Some(r) => Some([c] + r) case None => None
  {
    if Unreserved(c) {
      DecodeUnreserved(c, rest);
    } else if c as int < 0x80 {
      assert Utf8(c) == [c as int];
      DecodeAsciiEscape(c, rest);
    } else {
      DecodeMultiByte(c, rest);
    }
  }

  /** `decodeURIComponent` undoes the serializer's encoding of a string without spaces (a space is written `+`, which it keeps). */
  lemma {:induction false} DecodeEncode(s: string)
    requires ' ' !in s
    ensures DecodeUriComponent(Encode(s)) == Some(s)
  {
    if s != [] {
      DecodeEncode(s[1..]);
      DecodeEncodeChar(s[0], Encode(s[1..]));
      assert [s[0]] + s[1..] == s;
    }
  }
}
