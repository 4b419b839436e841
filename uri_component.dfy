/**
 * `encodeURIComponent` and its inverse `decodeURIComponent`, as ECMA-262
 * section 19.2.6 ("URI Handling Functions") defines them: every character
 * outside the unescaped set is written as the UTF-8 bytes of its code point,
 * each byte as a `%XY` triple with upper-case hexadecimal digits, which is the
 * percent-encoding of section 2.1 of RFC 3986.
 */
module UriComponent {
  import opened Wrappers

  type Byte = n: int | 0 <= n < 256

  /** The error `decodeURIComponent` throws on a malformed escape. */
  datatype UriError = UriError

  /** The characters `encodeURIComponent` copies: ASCII letters and digits and `-_.!~*'()`. */
  predicate IsUnescaped(c: char) {
    ('A' <= c <= 'Z') || ('a' <= c <= 'z') || ('0' <= c <= '9')
    || c == '-' || c == '_' || c == '.' || c == '!' || c == '~' || c == '*'
    || c == '\'' || c == '(' || c == ')'
  }

  /** The UTF-8 encoding of one code point (section 3.9 of the Unicode standard). */
  function Utf8(c: char): (bs: seq<Byte>)
    ensures 1 <= |bs| <= 4
    ensures |bs| == 1 <==> c as int < 0x80
  {
    var cp := c as int;
    if cp < 0x80 then [cp]
    else if cp < 0x800 then [0xC0 + cp / 64, 0x80 + cp % 64]
    else if cp < 0x10000 then [0xE0 + cp / 4096, 0x80 + cp / 64 % 64, 0x80 + cp % 64]
    else [0xF0 + cp / 262144, 0x80 + cp / 4096 % 64, 0x80 + cp / 64 % 64, 0x80 + cp % 64]
  }

  /** The upper-case hexadecimal digit for `k`. */
  function HexDigit(k: nat): (c: char)
    requires k < 16
    ensures IsUpperHexDigit(c) && IsUnescaped(c)
  {
    if k < 10 then ('0' as int + k) as char else ('A' as int + k - 10) as char
  }

  /** A hexadecimal digit as `encodeURIComponent` writes it. */
  predicate IsUpperHexDigit(c: char) {
    ('0' <= c <= '9') || ('A' <= c <= 'F')
  }

  /** A hexadecimal digit of either case, as `decodeURIComponent` accepts. */
  predicate IsHexDigit(c: char) {
    ('0' <= c <= '9') || ('A' <= c <= 'F') || ('a' <= c <= 'f')
  }

  function HexValue(c: char): (k: nat)
    requires IsHexDigit(c)
    ensures k < 16
  {
    if '0' <= c <= '9' then c as int - '0' as int
    else if 'A' <= c <= 'F' then c as int - 'A' as int + 10
    else c as int - 'a' as int + 10
  }

  /** The `%XY` triple for one byte. */
  function Escape(b: Byte): string {
    ['%', HexDigit(b / 16), HexDigit(b % 16)]
  }

  function EscapeAll(bs: seq<Byte>): (e: string)
    ensures |e| == 3 * |bs|
  {
    if bs == [] then [] else Escape(bs[0]) + EscapeAll(bs[1..])
  }

  /** How one character appears in the output of `encodeURIComponent`. */
  function EncodeChar(c: char): string {
    if IsUnescaped(c) then [c] else EscapeAll(Utf8(c))
  }

  /** `encodeURIComponent(s)`. */
  function Encode(s: string): (r: string)
    ensures forall i :: 0 <= i < |r| ==> IsUnescaped(r[i]) || r[i] == '%'
  {
    if s == [] then []
    else
      var head := EncodeChar(s[0]);
      assert forall i :: 0 <= i < |head| ==> IsUnescaped(head[i]) || head[i] == '%' by {
        if !IsUnescaped(s[0]) { EscapeAllAlphabet(Utf8(s[0])); }
      }
      head + Encode(s[1..])
  }

  lemma {:induction false} EscapeAllAlphabet(bs: seq<Byte>)
    ensures forall i :: 0 <= i < |EscapeAll(bs)| ==> IsUnescaped(EscapeAll(bs)[i]) || EscapeAll(bs)[i] == '%'
  {
    if bs != [] {
      EscapeAllAlphabet(bs[1..]);
    }
  }

  /**
   * Well-formed percent-encoded text: unescaped characters and `%XY` triples of
   * upper-case hexadecimal digits, nothing else.
   */
  predicate PercentEncoded(s: string) {
    if s == [] then true
    else if s[0] == '%' then
      |s| >= 3 && IsUpperHexDigit(s[1]) && IsUpperHexDigit(s[2])
      && PercentEncoded(s[3..])
    else IsUnescaped(s[0]) && PercentEncoded(s[1..])
  }

  /** Percent-encoded text stays percent-encoded when more of it follows. */
  lemma {:induction false} PercentEncodedConcat(a: string, b: string)
    requires PercentEncoded(a) && PercentEncoded(b)
    ensures PercentEncoded(a + b)
  {
    if a == [] {
      assert a + b == b;
    } else if a[0] == '%' {
      PercentEncodedConcat(a[3..], b);
      PercentEncodedConsEscape(a, b);
    } else {
      PercentEncodedConcat(a[1..], b);
      PercentEncodedConsChar(a, b);
    }
  }

  lemma PercentEncodedConsEscape(a: string, b: string)
    requires |a| >= 3 && a[0] == '%' && IsUpperHexDigit(a[1]) && IsUpperHexDigit(a[2])
    requires PercentEncoded(a[3..] + b)
    ensures PercentEncoded(a + b)
  {
    var s := a + b;
    assert s[0] == '%' && s[1] == a[1] && s[2] == a[2];
    assert s[3..] == a[3..] + b;
  }

  lemma PercentEncodedConsChar(a: string, b: string)
    requires |a| >= 1 && a[0] != '%' && IsUnescaped(a[0])
    requires PercentEncoded(a[1..] + b)
    ensures PercentEncoded(a + b)
  {
    var s := a + b;
    assert s[0] == a[0];
    assert s[1..] == a[1..] + b;
  }

  lemma {:induction false} EscapeAllPercentEncoded(bs: seq<Byte>)
    ensures PercentEncoded(EscapeAll(bs))
  {
    if bs != [] {
      EscapeAllPercentEncoded(bs[1..]);
      var e := EscapeAll(bs);
      assert e[3..] == EscapeAll(bs[1..]);
    }
  }

  /** The output of `encodeURIComponent` consists of unescaped characters and `%XY` triples only. */
  lemma {:induction false} EncodePercentEncoded(s: string)
    ensures PercentEncoded(Encode(s))
  {
    if s != [] {
      EncodePercentEncoded(s[1..]);
      if IsUnescaped(s[0]) {
        assert PercentEncoded([s[0]]);
      } else {
        EscapeAllPercentEncoded(Utf8(s[0]));
      }
      PercentEncodedConcat(EncodeChar(s[0]), Encode(s[1..]));
    }
  }

  /** A string of unescaped characters is its own encoding. */
  lemma {:induction false} EncodeUnescaped(s: string)
    requires forall i :: 0 <= i < |s| ==> IsUnescaped(s[i])
    ensures Encode(s) == s
  {
    if s != [] {
      EncodeUnescaped(s[1..]);
      assert s == [s[0]] + s[1..];
    }
  }

  // ---------------------------------------------------------------------
  // decodeURIComponent

  /** The byte written as a `%XY` triple at the start of `s`, if there is one. */
  function ByteAt(s: string): (r: Option<Byte>)
    ensures r.Some? ==> |s| >= 3
  {
    if |s| >= 3 && s[0] == '%' && IsHexDigit(s[1]) && IsHexDigit(s[2])
    then Some(HexValue(s[1]) * 16 + HexValue(s[2]))
    else None
  }

  /**
   * The number of leading one bits of a UTF-8 lead byte, which is the length
   * of the sequence it starts (0 for a one-byte character; 5 stands for any
   * count above 4).
   */
  function LeadingOnes(b: Byte): nat {
    if b < 0x80 then 0
    else if b < 0xC0 then 1
    else if b < 0xE0 then 2
    else if b < 0xF0 then 3
    else if b < 0xF8 then 4
    else 5
  }

  /** `n` consecutive `%XY` triples at the start of `s`, as bytes. */
  function Octets(s: string, n: nat): (r: Option<seq<Byte>>)
    ensures r.Some? ==> |r.value| == n && 3 * n <= |s|
  {
    if n == 0 then Some([])
    else match ByteAt(s)
      case None => None
      case Some(b) =>
        match Octets(s[3..], n - 1)
        case None => None
        case Some(bs) => Some([b] + bs)
  }

  predicate IsContinuation(b: Byte) {
    0x80 <= b < 0xC0
  }

  /**
   * The code point of a multi-byte UTF-8 sequence, or None when the bytes are
   * not the well-formed encoding of one code point (overlong forms, surrogates
   * and values above 0x10FFFF are refused).
   */
  function Utf8Decode(bs: seq<Byte>): Option<char> {
    if |bs| == 2 && 0xC0 <= bs[0] < 0xE0 && IsContinuation(bs[1]) then
      var cp := (bs[0] as int - 0xC0) * 64 + (bs[1] as int - 0x80);
      if cp >= 0x80 then Some(cp as char) else None
    else if |bs| == 3 && 0xE0 <= bs[0] < 0xF0 && IsContinuation(bs[1]) && IsContinuation(bs[2]) then
      var cp := (bs[0] as int - 0xE0) * 4096 + (bs[1] as int - 0x80) * 64 + (bs[2] as int - 0x80);
      if cp >= 0x800 && !(0xD800 <= cp < 0xE000) then Some(cp as char) else None
    else if |bs| == 4 && 0xF0 <= bs[0] < 0xF8 && IsContinuation(bs[1]) && IsContinuation(bs[2])
            && IsContinuation(bs[3]) then
      var cp := (bs[0] as int - 0xF0) * 262144 + (bs[1] as int - 0x80) * 4096
                + (bs[2] as int - 0x80) * 64 + (bs[3] as int - 0x80);
      if 0x10000 <= cp < 0x110000 then Some(cp as char) else None
    else None
  }

  /**
   * The character written by the escape sequence at the start of `s`, and
   * the number of characters of `s` it occupies.
   */
  function DecodeEscape(s: string): (r: Option<(char, nat)>)
    ensures r.Some? ==> 3 <= r.value.1 <= |s|
  {
    match ByteAt(s)
    case None => None
    case Some(b) =>
      var n := LeadingOnes(b);
      if n == 0 then Some((b as char, 3))
      else if n == 1 || n > 4 then None
      else
        match Octets(s, n)
        case None => None
        case Some(bs) =>
          match Utf8Decode(bs)
          case None => None
          case Some(c) => Some((c, 3 * n))
  }

  /** `decodeURIComponent(s)`: Err when `s` holds a malformed escape. */
  function Decode(s: string): Result<string, UriError>
    decreases |s|
  {
    if s == [] then Ok([])
    else if s[0] != '%' then
      match Decode(s[1..])
      case Err(e) => Err(e)
      case Ok(t) => Ok([s[0]] + t)
    else
      match DecodeEscape(s)
      case None => Err(UriError)
      case Some((c, k)) =>
        match Decode(s[k..])
        case Err(e) => Err(e)
        case Ok(t) => Ok([c] + t)
  }

  // ---------------------------------------------------------------------
  // Round trip

  lemma HexValueDigit(k: nat)
    requires k < 16
    ensures HexValue(HexDigit(k)) == k
  {
  }

  lemma EscapeByte(b: Byte, t: string)
    ensures ByteAt(Escape(b) + t) == Some(b)
  {
    var s := Escape(b) + t;
    assert s[0] == '%' && s[1] == HexDigit(b / 16) && s[2] == HexDigit(b % 16);
    HexValueDigit(b / 16);
    HexValueDigit(b % 16);
  }

  /** One escape followed by `n - 1` more reads as its byte followed by theirs. */
  lemma OctetsStep(s: string, b: Byte, rest: seq<Byte>, n: nat)
    requires n >= 1 && ByteAt(s) == Some(b) && Octets(s[3..], n - 1) == Some(rest)
    ensures Octets(s, n) == Some([b] + rest)
  {
  }

  lemma {:induction false} EscapeAllOctets(bs: seq<Byte>, t: string)
    ensures Octets(EscapeAll(bs) + t, |bs|) == Some(bs)
  {
    if bs != [] {
      var tail := EscapeAll(bs[1..]) + t;
      var s := EscapeAll(bs) + t;
      assert s == Escape(bs[0]) + tail;
      EscapeByte(bs[0], tail);
      assert s[3..] == tail;
      EscapeAllOctets(bs[1..], t);
      OctetsStep(s, bs[0], bs[1..], |bs|);
      assert [bs[0]] + bs[1..] == bs;
    }
  }

  /** The radix-64 digits (six-bit groups) of a code point, as UTF-8 continuation bytes carry them. */
  lemma Radix64Digits(cp: int)
    requires 0 <= cp < 0x110000
    ensures cp / 64 % 64 == (cp / 64) % 64 && cp / 4096 == cp / 64 / 64
    ensures cp / 262144 == cp / 4096 / 64 && cp / 4096 % 64 == (cp / 4096) % 64
    ensures cp == (cp / 64) * 64 + cp % 64
    ensures cp / 64 == (cp / 4096) * 64 + cp / 64 % 64
    ensures cp / 4096 == (cp / 262144) * 64 + cp / 4096 % 64
  {
  }

  /** Two-byte sequences decode back to their code point. */
  lemma Utf8RoundTrip2(c: char)
    requires 0x80 <= c as int < 0x800
    ensures LeadingOnes(Utf8(c)[0]) == 2 && Utf8Decode(Utf8(c)) == Some(c)
  {
    var cp := c as int;
    var hi, lo := cp / 64, cp % 64;
    assert cp == hi * 64 + lo;
    assert Utf8(c) == [0xC0 + hi, 0x80 + lo];
  }

  /** Three-byte sequences decode back to their code point. */
  lemma Utf8RoundTrip3(c: char)
    requires 0x800 <= c as int < 0x10000
    ensures LeadingOnes(Utf8(c)[0]) == 3 && Utf8Decode(Utf8(c)) == Some(c)
  {
    var cp := c as int;
    Radix64Digits(cp);
    var hi, mid, lo := cp / 4096, cp / 64 % 64, cp % 64;
    assert cp == hi * 4096 + mid * 64 + lo;
    assert Utf8(c) == [0xE0 + hi, 0x80 + mid, 0x80 + lo];
  }

  /** Four-byte sequences decode back to their code point. */
  lemma Utf8RoundTrip4(c: char)
    requires 0x10000 <= c as int
    ensures LeadingOnes(Utf8(c)[0]) == 4 && Utf8Decode(Utf8(c)) == Some(c)
  {
    var cp := c as int;
    Radix64Digits(cp);
    var top, hi, mid, lo := cp / 262144, cp / 4096 % 64, cp / 64 % 64, cp % 64;
    assert cp == top * 262144 + hi * 4096 + mid * 64 + lo;
    assert Utf8(c) == [0xF0 + top, 0x80 + hi, 0x80 + mid, 0x80 + lo];
  }

  /** UTF-8 decoding undoes UTF-8 encoding for every code point beyond ASCII. */
  lemma Utf8RoundTrip(c: char)
    requires c as int >= 0x80
    ensures LeadingOnes(Utf8(c)[0]) == |Utf8(c)|
    ensures Utf8Decode(Utf8(c)) == Some(c)
  {
    if c as int < 0x800 {
      Utf8RoundTrip2(c);
    } else if c as int < 0x10000 {
      Utf8RoundTrip3(c);
    } else {
      Utf8RoundTrip4(c);
    }
  }

  /** A multi-byte escape sequence whose octets decode to `c`. */
  lemma DecodeEscapeMultiByte(s: string, bs: seq<Byte>, c: char)
    requires 2 <= |bs| <= 4 && ByteAt(s) == Some(bs[0]) && LeadingOnes(bs[0]) == |bs|
    requires Octets(s, |bs|) == Some(bs) && Utf8Decode(bs) == Some(c)
    ensures DecodeEscape(s) == Some((c, 3 * |bs|))
  {
  }

  /** The first escape of an escaped sequence reads as its first byte. */
  lemma EscapeAllFirstByte(bs: seq<Byte>, t: string)
    requires bs != []
    ensures ByteAt(EscapeAll(bs) + t) == Some(bs[0])
  {
    var tail := EscapeAll(bs[1..]) + t;
    assert EscapeAll(bs) + t == Escape(bs[0]) + tail;
    EscapeByte(bs[0], tail);
  }

  /** The escape sequence for an escaped character decodes to that character. */
  lemma DecodeEncodedChar(c: char, t: string)
    requires !IsUnescaped(c)
    ensures DecodeEscape(EncodeChar(c) + t) == Some((c, |EncodeChar(c)|))
  {
    var bs := Utf8(c);
    var s := EscapeAll(bs) + t;
    EscapeAllFirstByte(bs, t);
    if c as int < 0x80 {
      assert bs[0] as char == c;
    } else {
      EscapeAllOctets(bs, t);
      Utf8RoundTrip(c);
      DecodeEscapeMultiByte(s, bs, c);
    }
  }

  /** `decodeURIComponent(encodeURIComponent(s)) == s` for every string. */
  lemma {:induction false} DecodeEncode(s: string)
    ensures Decode(Encode(s)) == Ok(s)
  {
    if s != [] {
      var head := EncodeChar(s[0]);
      var e := Encode(s);
      assert e == head + Encode(s[1..]);
      DecodeEncode(s[1..]);
      if IsUnescaped(s[0]) {
        assert e[0] == s[0] && e[1..] == Encode(s[1..]);
      } else {
        DecodeEncodedChar(s[0], Encode(s[1..]));
        assert e[|head|..] == Encode(s[1..]);
      }
      assert [s[0]] + s[1..] == s;
    }
  }
}
