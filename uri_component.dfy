/** `encodeURIComponent` of ECMA-262 (section 18.2.6.5 of the 2015 edition):
    the unreserved characters of section 2.3 of RFC 2396 are kept, every
    other character is written as UTF-8 and each octet as `%HH` with
    upper-case hex digits (section 2.1 of RFC 3986). `DecodeURIComponent` is
    its inverse, used to state the round trip. */
module UriComponent {
  import opened Types

  newtype byte = x: int | 0 <= x < 256

  // ---------------------------------------------------------------------
  // Character classes and hex digits

  /** Letters, digits and the marks `- _ . ! ~ * ' ( )`. */
  predicate Unreserved(c: char) {
    || 'A' <= c <= 'Z' || 'a' <= c <= 'z' || '0' <= c <= '9'
    || c == '-' || c == '_' || c == '.' || c == '!' || c == '~'
    || c == '*' || c == '\'' || c == '(' || c == ')'
  }

  predicate IsHexDigit(c: char) {
    '0' <= c <= '9' || 'A' <= c <= 'F' || 'a' <= c <= 'f'
  }

  /** The upper-case hex digit for a value below 16. */
  function HexDigit(v: nat): (c: char)
    requires v < 16
    ensures IsHexDigit(c) && Unreserved(c)
  {
    if v < 10 then ('0' as int + v) as char else ('A' as int + v - 10) as char
  }

  /** The value of a hex digit of either case. */
  function HexValue(c: char): (v: nat)
    requires IsHexDigit(c)
    ensures v < 16
  {
    if c <= '9' then c as int - '0' as int
    else if c <= 'F' then c as int - 'A' as int + 10
    else c as int - 'a' as int + 10
  }

  // ---------------------------------------------------------------------
  // UTF-8

  predicate IsContinuation(b: byte) {
    0x80 <= b < 0xC0
  }

  /** The UTF-8 octets of one character (a Unicode scalar value). */
  function Utf8Char(c: char): (bs: seq<byte>)
    ensures 1 <= |bs| <= 4
    ensures c as int < 0x80 <==> |bs| == 1
    ensures c as int < 0x80 ==> bs[0] as int == c as int
  {
    var n := c as int;
    if n < 0x80 then
      [n as byte]
    else if n < 0x800 then
      [(0xC0 + n / 64) as byte, (0x80 + n % 64) as byte]
    else if n < 0x10000 then
      [(0xE0 + n / 64 / 64) as byte, (0x80 + n / 64 % 64) as byte, (0x80 + n % 64) as byte]
    else
      [(0xF0 + n / 64 / 64 / 64) as byte, (0x80 + n / 64 / 64 % 64) as byte,
       (0x80 + n / 64 % 64) as byte, (0x80 + n % 64) as byte]
  }

  /** The UTF-8 octets of a string. */
  function Utf8Encode(s: string): (bs: seq<byte>)
    ensures |bs| >= |s|
  {
    if s == [] then [] else Utf8Char(s[0]) + Utf8Encode(s[1..])
  }

  /** The first character of a UTF-8 octet sequence and how many octets it
      takes; None for a malformed, overlong or surrogate sequence. */
  function DecodeFirst(bs: seq<byte>): (r: Option<(char, nat)>)
    requires |bs| > 0
    ensures r.Some? ==> 1 <= r.value.1 <= |bs|
  {
    var b0 := bs[0] as int;
    if b0 < 0x80 then
      Some((b0 as char, 1))
    else if 0xC0 <= b0 < 0xE0 then
      if |bs| >= 2 && IsContinuation(bs[1]) then
        var v := (b0 - 0xC0) * 64 + (bs[1] as int - 0x80);
        if 0x80 <= v then Some((v as char, 2)) else None
      else None
    else if 0xE0 <= b0 < 0xF0 then
      if |bs| >= 3 && IsContinuation(bs[1]) && IsContinuation(bs[2]) then
        var v := ((b0 - 0xE0) * 64 + (bs[1] as int - 0x80)) * 64 + (bs[2] as int - 0x80);
        if 0x800 <= v && !(0xD800 <= v < 0xE000) then Some((v as char, 3)) else None
      else None
    else if 0xF0 <= b0 < 0xF8 then
      if |bs| >= 4 && IsContinuation(bs[1]) && IsContinuation(bs[2]) && IsContinuation(bs[3]) then
        var v := (((b0 - 0xF0) * 64 + (bs[1] as int - 0x80)) * 64 + (bs[2] as int - 0x80)) * 64
                 + (bs[3] as int - 0x80);
        if 0x10000 <= v <= 0x10FFFF then Some((v as char, 4)) else None
      else None
    else
      None
  }

  /** The string a UTF-8 octet sequence spells; None if it is malformed. */
  function Utf8Decode(bs: seq<byte>): Option<string>
    decreases |bs|
  {
    if bs == [] then Some([])
    else
      match DecodeFirst(bs)
      case None => None
      case Some((c, k)) =>
        match Utf8Decode(bs[k..])
        case None => None
        case Some(rest) => Some([c] + rest)
  }

  // ---------------------------------------------------------------------
  // Percent-encoding

  /** `%HH` for one octet. */
  function PercentByte(b: byte): (r: string)
    ensures |r| == 3 && r[0] == '%' && IsHexDigit(r[1]) && IsHexDigit(r[2])
    ensures HexValue(r[1]) * 16 + HexValue(r[2]) == b as int
  {
    ['%', HexDigit(b as int / 16), HexDigit(b as int % 16)]
  }

  /** `%HH` for each octet, in order. */
  function PercentBytes(bs: seq<byte>): (r: string)
    ensures |r| == 3 * |bs|
    ensures forall i :: 0 <= i < |r| ==> r[i] == '%' || Unreserved(r[i])
  {
    if bs == [] then [] else PercentByte(bs[0]) + PercentBytes(bs[1..])
  }

  /** One character: itself when unreserved, else its escaped UTF-8 octets. */
  function EncodeChar(c: char): (r: string)
    ensures Unreserved(c) ==> r == [c]
    ensures !Unreserved(c) ==> r == PercentBytes(Utf8Char(c))
    ensures forall i :: 0 <= i < |r| ==> r[i] == '%' || Unreserved(r[i])
  {
    if Unreserved(c) then [c] else PercentBytes(Utf8Char(c))
  }

  /** `encodeURIComponent`: every character of the result is unreserved or
      `%`, and no character of the input is lost. */
  function EncodeURIComponent(s: string): (r: string)
    ensures |r| >= |s|
    ensures forall i :: 0 <= i < |r| ==> r[i] == '%' || Unreserved(r[i])
  {
    if s == [] then [] else EncodeChar(s[0]) + EncodeURIComponent(s[1..])
  }

  /** Octets preceded by `bs`, unless decoding already failed. */
  function Prepend(bs: seq<byte>, o: Option<seq<byte>>): Option<seq<byte>> {
    match o
    case None => None
    case Some(rest) => Some(bs + rest)
  }

  /** The octets a percent-encoded string stands for: `%HH` (either case)
      is one octet, any other character its own UTF-8 octets; a `%` that is
      not followed by two hex digits is malformed. */
  function PercentDecode(t: string): Option<seq<byte>>
    decreases |t|
  {
    if t == [] then Some([])
    else if t[0] == '%' then
      if |t| >= 3 && IsHexDigit(t[1]) && IsHexDigit(t[2]) then
        Prepend([(HexValue(t[1]) * 16 + HexValue(t[2])) as byte], PercentDecode(t[3..]))
      else None
    else
      Prepend(Utf8Char(t[0]), PercentDecode(t[1..]))
  }

  /** `decodeURIComponent`: percent-decoding followed by UTF-8 decoding. */
  function DecodeURIComponent(t: string): Option<string> {
    match PercentDecode(t)
    case None => None
    case Some(bs) => Utf8Decode(bs)
  }

  // ---------------------------------------------------------------------
  // Properties

  /** Encoding is applied character by character, so it distributes over
      concatenation and keeps the order of the input. */
  lemma {:induction false} EncodeAppend(a: string, b: string)
    ensures EncodeURIComponent(a + b) == EncodeURIComponent(a) + EncodeURIComponent(b)
  {
    if a == [] {
      assert a + b == b;
    } else {
      assert (a + b)[1..] == a[1..] + b;
      EncodeAppend(a[1..], b);
    }
  }

  /** A string made only of unreserved characters is left unchanged. */
  lemma {:induction false} EncodeUnreserved(s: string)
    requires forall i :: 0 <= i < |s| ==> Unreserved(s[i])
    ensures EncodeURIComponent(s) == s
  {
    if s != [] {
      EncodeUnreserved(s[1..]);
      assert s == [s[0]] + s[1..];
    }
  }

  /** The space and the vertical bar never survive encoding. */
  lemma EncodedHasNoSpaceOrBar(s: string)
    ensures ' ' !in EncodeURIComponent(s) && '|' !in EncodeURIComponent(s)
  {
  }

  /** The key separator " | " encodes as "%20%7C%20". */
  lemma EncodeSeparator()
    ensures EncodeURIComponent(" | ") == "%20%7C%20"
  {
    assert " | "[1..] == "| " && "| "[1..] == " " && " "[1..] == "";
    assert Utf8Char(' ') == [0x20] && Utf8Char('|') == [0x7C];
    assert PercentBytes([0x20]) == "%20";
    assert PercentBytes([0x7C]) == "%7C";
  }

  lemma DecodeFirstUtf8Char(c: char, rest: seq<byte>)
    ensures DecodeFirst(Utf8Char(c) + rest) == Some((c, |Utf8Char(c)|))
  {
    var n := c as int;
    var bs := Utf8Char(c) + rest;
    if n < 0x80 {
    } else if n < 0x800 {
      assert n == (n / 64) * 64 + n % 64;
      assert bs[0] as int == 0xC0 + n / 64;
    } else if n < 0x10000 {
      var q1 := n / 64;
      var q2 := q1 / 64;
      assert n == q1 * 64 + n % 64;
      assert q1 == q2 * 64 + q1 % 64;
      assert q2 < 16;
      assert bs[0] as int - 0xE0 == q2;
    } else {
      var q1 := n / 64;
      var q2 := q1 / 64;
      var q3 := q2 / 64;
      assert n == q1 * 64 + n % 64;
      assert q1 == q2 * 64 + q1 % 64;
      assert q2 == q3 * 64 + q2 % 64;
      assert q3 < 5;
      assert bs[0] as int - 0xF0 == q3;
    }
  }

  /** UTF-8 decoding undoes UTF-8 encoding. */
  lemma {:induction false} Utf8RoundTrip(s: string)
    ensures Utf8Decode(Utf8Encode(s)) == Some(s)
  {
    if s != [] {
      var bs := Utf8Encode(s);
      var k := |Utf8Char(s[0])|;
      DecodeFirstUtf8Char(s[0], Utf8Encode(s[1..]));
      assert bs[k..] == Utf8Encode(s[1..]);
      Utf8RoundTrip(s[1..]);
      assert s == [s[0]] + s[1..];
    }
  }

  lemma {:induction false} PercentDecodeBytes(bs: seq<byte>, rest: string)
    ensures PercentDecode(PercentBytes(bs) + rest) == Prepend(bs, PercentDecode(rest))
  {
    if bs != [] {
      var t := PercentBytes(bs) + rest;
      var h := PercentByte(bs[0]);
      assert t == h + (PercentBytes(bs[1..]) + rest);
      assert t[3..] == PercentBytes(bs[1..]) + rest;
      assert t[0] == '%' && t[1] == h[1] && t[2] == h[2];
      assert (HexValue(t[1]) * 16 + HexValue(t[2])) as byte == bs[0];
      assert PercentDecode(t) == Prepend([bs[0]], PercentDecode(t[3..]));
      PercentDecodeBytes(bs[1..], rest);
      assert PercentDecode(t[3..]) == Prepend(bs[1..], PercentDecode(rest));
      match PercentDecode(rest)
      case None =>
        assert PercentDecode(t) == None;
      case Some(r) =>
        assert PercentDecode(t) == Some([bs[0]] + (bs[1..] + r));
        assert [bs[0]] + (bs[1..] + r) == bs + r;
    } else {
      assert PercentBytes(bs) + rest == rest;
      match PercentDecode(rest)
      case None =>
      case Some(r) => assert bs + r == r;
    }
  }

  lemma PercentDecodeChar(c: char, rest: string)
    ensures PercentDecode(EncodeChar(c) + rest) == Prepend(Utf8Char(c), PercentDecode(rest))
  {
    if Unreserved(c) {
      assert ([c] + rest)[1..] == rest;
    } else {
      PercentDecodeBytes(Utf8Char(c), rest);
    }
  }

  /** Percent-decoding an encoded string gives its UTF-8 octets. */
  lemma {:induction false} PercentDecodeEncoded(s: string)
    ensures PercentDecode(EncodeURIComponent(s)) == Some(Utf8Encode(s))
  {
    if s != [] {
      PercentDecodeChar(s[0], EncodeURIComponent(s[1..]));
      PercentDecodeEncoded(s[1..]);
    }
  }

  /** Decoding an encoded string gives the original string back. */
  lemma DecodeEncode(s: string)
    ensures DecodeURIComponent(EncodeURIComponent(s)) == Some(s)
  {
    PercentDecodeEncoded(s);
    Utf8RoundTrip(s);
  }

  /** Different strings have different encodings. */
  lemma EncodeInjective(a: string, b: string)
    requires EncodeURIComponent(a) == EncodeURIComponent(b)
    ensures a == b
  {
    DecodeEncode(a);
    DecodeEncode(b);
  }
}
