/**
 * ECMAScript's `encodeURIComponent` and `decodeURIComponent` (ECMA-262,
 * the abstract operations Encode and Decode): percent-encoding of the UTF-8
 * bytes of a string as in section 2.1 of RFC 3986. A string is a sequence
 * of Unicode scalar values; decoding fails (a `URIError` in JavaScript) on
 * a malformed escape sequence, which is `None` here.
 */
module Uri {
  import opened Wrappers

  type Byte = b: int | 0 <= b < 0x100

  // ---------------------------------------------------------------- UTF-8

  /** A UTF-8 continuation byte: 10xxxxxx. */
  predicate IsContinuation(b: Byte) {
    0x80 <= b < 0xC0
  }

  /** The number of leading one bits of `b`. */
  function LeadingOnes(b: Byte): (n: nat)
    ensures n <= 8
  {
    if b < 0x80 then 0
    else if b < 0xC0 then 1
    else if b < 0xE0 then 2
    else if b < 0xF0 then 3
    else if b < 0xF8 then 4
    else if b < 0xFC then 5
    else if b < 0xFE then 6
    else if b < 0xFF then 7
    else 8
  }

  /**
   * The UTF-8 encoding of one scalar value (RFC 3629): one byte below 0x80,
   * otherwise a lead byte announcing the length followed by continuation bytes.
   */
  function Utf8Encode(c: char): (bytes: seq<Byte>)
    ensures 1 <= |bytes| <= 4
    ensures |bytes| == 1 <==> c as int < 0x80
    ensures |bytes| == 1 ==> bytes[0] == c as int
    ensures |bytes| > 1 ==> LeadingOnes(bytes[0]) == |bytes|
    ensures forall i :: 1 <= i < |bytes| ==> IsContinuation(bytes[i])
  {
    var cp := c as int;
    if cp < 0x80 then [cp]
    else if cp < 0x800 then [0xC0 + cp / 0x40, 0x80 + cp % 0x40]
    else if cp < 0x1_0000 then
      [0xE0 + cp / 0x40 / 0x40, 0x80 + cp / 0x40 % 0x40, 0x80 + cp % 0x40]
    else
      [0xF0 + cp / 0x40 / 0x40 / 0x40, 0x80 + cp / 0x40 / 0x40 % 0x40,
       0x80 + cp / 0x40 % 0x40, 0x80 + cp % 0x40]
  }

  /**
   * The scalar value `bytes` is the UTF-8 encoding of, or `None` when they
   * are not a well-formed encoding of one scalar value (wrong length, a bad
   * continuation byte, an overlong form, a surrogate or a value past 0x10FFFF).
   */
  function Utf8Decode(bytes: seq<Byte>): (r: Option<char>)
  {
    var b: seq<int> := bytes;
    if |bytes| == 1 then
      if bytes[0] < 0x80 then Some(bytes[0] as char) else None
    else if |bytes| == 2 then
      if 0xC0 <= bytes[0] < 0xE0 && IsContinuation(bytes[1]) then
        var cp := (b[0] - 0xC0) * 0x40 + (b[1] - 0x80);
        if 0x80 <= cp then Some(cp as char) else None
      else None
    else if |bytes| == 3 then
      if 0xE0 <= bytes[0] < 0xF0 && IsContinuation(bytes[1]) && IsContinuation(bytes[2]) then
        var cp := ((b[0] - 0xE0) * 0x40 + (b[1] - 0x80)) * 0x40 + (b[2] - 0x80);
        if 0x800 <= cp && !(0xD800 <= cp < 0xE000) then Some(cp as char) else None
      else None
    else if |bytes| == 4 then
      if 0xF0 <= bytes[0] < 0xF8 && IsContinuation(bytes[1]) && IsContinuation(bytes[2])
         && IsContinuation(bytes[3]) then
        var cp := (((b[0] - 0xF0) * 0x40 + (b[1] - 0x80)) * 0x40 + (b[2] - 0x80)) * 0x40 + (b[3] - 0x80);
        if 0x1_0000 <= cp < 0x11_0000 then Some(cp as char) else None
      else None
    else None
  }

  /** UTF-8 decoding inverts UTF-8 encoding. */
  lemma Utf8RoundTrip(c: char)
    ensures Utf8Decode(Utf8Encode(c)) == Some(c)
  {
    var cp := c as int;
    var q1, r1 := cp / 0x40, cp % 0x40;
    assert cp == q1 * 0x40 + r1;
    var q2, r2 := q1 / 0x40, q1 % 0x40;
    assert q1 == q2 * 0x40 + r2;
    var q3, r3 := q2 / 0x40, q2 % 0x40;
    assert q2 == q3 * 0x40 + r3;
    if cp < 0x80 {
    } else if cp < 0x800 {
      assert Utf8Encode(c) == [0xC0 + q1, 0x80 + r1];
    } else if cp < 0x1_0000 {
      assert Utf8Encode(c) == [0xE0 + q2, 0x80 + r2, 0x80 + r1];
      assert (q2 * 0x40 + r2) * 0x40 + r1 == cp;
    } else {
      assert Utf8Encode(c) == [0xF0 + q3, 0x80 + r3, 0x80 + r2, 0x80 + r1];
      assert ((q3 * 0x40 + r3) * 0x40 + r2) * 0x40 + r1 == cp;
    }
  }

  // ------------------------------------------------------- hexadecimal digits

  predicate IsHexDigit(c: char) {
    ('0' <= c <= '9') || ('A' <= c <= 'F') || ('a' <= c <= 'f')
  }

  /** The value of a hexadecimal digit, either case. */
  function HexValue(c: char): (d: nat)
    requires IsHexDigit(c)
    ensures d < 16
  {
    if c <= '9' then c as int - '0' as int
    else if c <= 'F' then c as int - 'A' as int + 10
    else c as int - 'a' as int + 10
  }

  /** The upper-case hexadecimal digit `encodeURIComponent` writes for `d`. */
  function HexDigit(d: nat): (c: char)
    requires d < 16
    ensures IsHexDigit(c) && HexValue(c) == d
  {
    if d < 10 then ('0' as int + d) as char else ('A' as int + d - 10) as char
  }

  // ------------------------------------------------------------------ encode

  /** What `encodeURIComponent` leaves unescaped: ALPHA, DIGIT and `-_.!~*'()`. */
  predicate IsUnreserved(c: char) {
    ('A' <= c <= 'Z') || ('a' <= c <= 'z') || ('0' <= c <= '9')
    || c == '-' || c == '_' || c == '.' || c == '!' || c == '~' || c == '*'
    || c == '\'' || c == '(' || c == ')'
  }

  /** The characters an encoded string consists of. */
  predicate IsUriSafe(c: char) {
    IsUnreserved(c) || c == '%' || IsHexDigit(c)
  }

  /** `%XY` for every byte, XY its two upper-case hexadecimal digits. */
  function Escape(bytes: seq<Byte>): (s: string)
    ensures |s| == 3 * |bytes|
    ensures forall i :: 0 <= i < |s| ==> IsUriSafe(s[i])
    decreases |bytes|
  {
    if bytes == [] then []
    else ['%', HexDigit(bytes[0] / 16), HexDigit(bytes[0] % 16)] + Escape(bytes[1..])
  }

  /** One character, encoded. */
  function EncodeChar(c: char): string {
    if IsUnreserved(c) then [c] else Escape(Utf8Encode(c))
  }

  /** `encodeURIComponent(s)`. */
  function Encode(s: string): (r: string)
    ensures |s| <= |r| <= 12 * |s|
    ensures forall i :: 0 <= i < |r| ==> IsUriSafe(r[i])
    decreases |s|
  {
    if s == [] then [] else EncodeChar(s[0]) + Encode(s[1..])
  }

  /** An encoded string holds no `;`, `=` or white space and only ASCII. */
  lemma EncodedIsPlain(s: string)
    ensures ';' !in Encode(s) && '=' !in Encode(s) && ' ' !in Encode(s)
    ensures forall i :: 0 <= i < |Encode(s)| ==> Encode(s)[i] as int < 0x80
  {
  }

  // ------------------------------------------------------------------ decode

  /** The byte written as `%XY` at index `i` of `s`, if there is one. */
  function OctetAt(s: string, i: nat): (b: Option<Byte>)
    ensures b.Some? ==> i + 3 <= |s|
  {
    if i + 3 <= |s| && s[i] == '%' && IsHexDigit(s[i + 1]) && IsHexDigit(s[i + 2])
    then Some(HexValue(s[i + 1]) * 16 + HexValue(s[i + 2]))
    else None
  }

  /** `count` escaped continuation bytes starting at index `i` of `s`. */
  function ContinuationsAt(s: string, i: nat, count: nat): (r: Option<seq<Byte>>)
    ensures r.Some? ==> |r.value| == count && (count > 0 ==> i + 3 * count <= |s|)
    decreases count
  {
    if count == 0 then Some([])
    else
      match OctetAt(s, i)
      case None => None
      case Some(b) =>
        if !IsContinuation(b) then None
        else
          match ContinuationsAt(s, i + 3, count - 1)
          case None => None
          case Some(rest) => Some([b] + rest)
  }

  /**
   * The escape sequence at the start of `s` (which starts with `%`): the
   * character it stands for and how many characters of `s` it takes.
   */
  function EscapeAt(s: string): (r: Option<(char, nat)>)
    ensures r.Some? ==> 3 <= r.value.1 <= |s|
  {
    match OctetAt(s, 0)
    case None => None
    case Some(b) =>
      if b < 0x80 then Some((b as char, 3))
      else
        var n := LeadingOnes(b);
        if n == 1 || n > 4 then None
        else
          match ContinuationsAt(s, 3, n - 1)
          case None => None
          case Some(tail) =>
            match Utf8Decode([b] + tail)
            case None => None
            case Some(c) => Some((c, 3 * n))
  }

  /** `decodeURIComponent(s)`, `None` where it throws a `URIError`. */
  function Decode(s: string): (r: Option<string>)
    ensures r.Some? ==> |r.value| <= |s|
    ensures '%' !in s ==> r == Some(s)
    decreases |s|
  {
    if s == [] then Some([])
    else if s[0] != '%' then
      assert s == [s[0]] + s[1..];
      match Decode(s[1..])
      case None => None
      case Some(t) => Some([s[0]] + t)
    else
      match EscapeAt(s)
      case None => None
      case Some(e) =>
        match Decode(s[e.1..])
        case None => None
        case Some(t) => Some([e.0] + t)
  }

  // -------------------------------------------------------------- round trip

  lemma {:induction false} EscapeAt3(bytes: seq<Byte>, rest: string, j: nat)
    requires j < |bytes|
    ensures (Escape(bytes) + rest)[3 * j] == '%'
    ensures (Escape(bytes) + rest)[3 * j + 1] == HexDigit(bytes[j] / 16)
    ensures (Escape(bytes) + rest)[3 * j + 2] == HexDigit(bytes[j] % 16)
    decreases j
  {
    var s := Escape(bytes);
    assert s == ['%', HexDigit(bytes[0] / 16), HexDigit(bytes[0] % 16)] + Escape(bytes[1..]);
    if j > 0 {
      EscapeAt3(bytes[1..], rest, j - 1);
      assert (s + rest)[3 * j..] == (Escape(bytes[1..]) + rest)[3 * (j - 1)..];
    }
  }

  /** The `j`-th escape of `Escape(bytes)` reads back as `bytes[j]`. */
  lemma {:induction false} OctetAtEscape(bytes: seq<Byte>, rest: string, j: nat)
    requires j < |bytes|
    ensures OctetAt(Escape(bytes) + rest, 3 * j) == Some(bytes[j])
  {
    var s := Escape(bytes) + rest;
    var b := bytes[j];
    assert 3 * j + 3 <= |s| && s[3 * j] == '%' && s[3 * j + 1] == HexDigit(b / 16) && s[3 * j + 2] == HexDigit(b % 16) by {
      EscapeAt3(bytes, rest, j);
    }
    OctetAtHex(s, 3 * j, b);
  }

  /** `%` and the two upper-case hexadecimal digits of `b` read back as `b`. */
  lemma OctetAtHex(s: string, i: nat, b: Byte)
    requires i + 3 <= |s|
    requires s[i] == '%' && s[i + 1] == HexDigit(b / 16) && s[i + 2] == HexDigit(b % 16)
    ensures OctetAt(s, i) == Some(b)
  {
    assert HexValue(s[i + 1]) * 16 + HexValue(s[i + 2]) == b;
  }

  lemma {:induction false} ContinuationsAtEscape(bytes: seq<Byte>, rest: string, i: nat)
    requires 1 <= i <= |bytes|
    requires forall k :: 1 <= k < |bytes| ==> IsContinuation(bytes[k])
    ensures ContinuationsAt(Escape(bytes) + rest, 3 * i, |bytes| - i) == Some(bytes[i..])
    decreases |bytes| - i
  {
    if i < |bytes| {
      OctetAtEscape(bytes, rest, i);
      ContinuationsAtEscape(bytes, rest, i + 1);
      assert bytes[i..] == [bytes[i]] + bytes[i + 1..];
    }
  }

  /** An escaped character decodes back to itself and consumes its whole escape. */
  lemma {:induction false} EscapeAtEncoded(c: char, rest: string)
    requires !IsUnreserved(c)
    ensures EscapeAt(EncodeChar(c) + rest) == Some((c, |EncodeChar(c)|))
  {
    var bytes := Utf8Encode(c);
    OctetAtEscape(bytes, rest, 0);
    Utf8RoundTrip(c);
    if |bytes| > 1 {
      ContinuationsAtEscape(bytes, rest, 1);
      assert [bytes[0]] + bytes[1..] == bytes;
    }
  }

  /** Decoding one encoded character in front of `rest`. */
  lemma DecodeEncodedChar(c: char, rest: string)
    ensures Decode(EncodeChar(c) + rest) ==
      match Decode(rest) case None => None case Some(t) => Some([c] + t)
  {
    var s := EncodeChar(c) + rest;
    if IsUnreserved(c) {
      assert s[0] == c && s[1..] == rest;
    } else {
      EscapeAtEncoded(c, rest);
      EscapeAt3(Utf8Encode(c), rest, 0);
      assert s[|EncodeChar(c)|..] == rest;
    }
  }

  /** `decodeURIComponent(encodeURIComponent(s)) === s`. */
  lemma {:induction false} RoundTrip(s: string)
    ensures Decode(Encode(s)) == Some(s)
    decreases |s|
  {
    if s != [] {
      RoundTrip(s[1..]);
      DecodeEncodedChar(s[0], Encode(s[1..]));
      assert [s[0]] + s[1..] == s;
    }
  }
}
