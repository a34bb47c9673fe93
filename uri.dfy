/**
 * encodeURIComponent and decodeURIComponent as ECMAScript defines them:
 * percent-encoding (section 2.1 of RFC 3986) of the UTF-8 octets of every
 * code point outside the unescaped set, and the inverse that rejects
 * malformed escapes and ill-formed UTF-8 (where JavaScript throws URIError).
 * Strings here are sequences of Unicode scalar values: the lone surrogates
 * on which encodeURIComponent throws cannot occur.
 */
module Uri {
  import opened Wrappers

  /** The characters encodeURIComponent copies: ALPHA, DIGIT and - _ . ! ~ * ' ( ). */
  predicate IsUnescaped(c: char) {
    ('A' <= c <= 'Z') || ('a' <= c <= 'z') || ('0' <= c <= '9') || c in "-_.!~*'()"
  }

  /** The upper-case hexadecimal digit of d. */
  function HexDigit(d: nat): char
    requires d < 16
  {
    if d < 10 then ('0' as int + d) as char else ('A' as int + d - 10) as char
  }

  /** The value of a hexadecimal digit of either case. */
  function HexValue(c: char): Option<nat> {
    if '0' <= c <= '9' then Some(c as int - '0' as int)
    else if 'A' <= c <= 'F' then Some(c as int - 'A' as int + 10)
    else if 'a' <= c <= 'f' then Some(c as int - 'a' as int + 10)
    else None
  }

  predicate IsOctet(b: nat) { b < 256 }

  /** The UTF-8 octets of a code point. */
  function Utf8(c: char): (bytes: seq<nat>)
    ensures 1 <= |bytes| <= 4
    ensures forall i :: 0 <= i < |bytes| ==> IsOctet(bytes[i])
  {
    var cp := c as int;
    if cp < 0x80 then [cp]
    else if cp < 0x800 then [0xC0 + cp / 64, 0x80 + cp % 64]
    else if cp < 0x1_0000 then [0xE0 + cp / 4096, 0x80 + (cp / 64) % 64, 0x80 + cp % 64]
    else [0xF0 + cp / 262144, 0x80 + (cp / 4096) % 64, 0x80 + (cp / 64) % 64, 0x80 + cp % 64]
  }

  /** "%XY" for each octet, XY its two upper-case hexadecimal digits. */
  function PercentOctets(bytes: seq<nat>): (r: string)
    requires forall i :: 0 <= i < |bytes| ==> IsOctet(bytes[i])
    ensures |r| == 3 * |bytes|
    ensures forall i :: 0 <= i < |r| ==> IsUnescaped(r[i]) || r[i] == '%'
  {
    if bytes == [] then []
    else
      assert IsOctet(bytes[0]);
      ['%', HexDigit(bytes[0] / 16), HexDigit(bytes[0] % 16)] + PercentOctets(bytes[1..])
  }

  function EncodeChar(c: char): string {
    if IsUnescaped(c) then [c] else PercentOctets(Utf8(c))
  }

  /**
   * encodeURIComponent. Every character of the result is unescaped or '%',
   * so the result never holds a '/' and fits in one path segment.
   */
  function EncodeURIComponent(s: string): (r: string)
    ensures forall i :: 0 <= i < |r| ==> IsUnescaped(r[i]) || r[i] == '%'
  {
    if s == [] then [] else EncodeChar(s[0]) + EncodeURIComponent(s[1..])
  }

  /** The octet written "%XY" at the start of s. */
  function OctetAt(s: string): Option<nat> {
    if |s| >= 3 && s[0] == '%' && HexValue(s[1]).Some? && HexValue(s[2]).Some?
    then Some(HexValue(s[1]).value * 16 + HexValue(s[2]).value)
    else None
  }

  /** The n octets written as escapes at the start of s. */
  function OctetsAt(s: string, n: nat): Option<seq<nat>>
    decreases n
  {
    if n == 0 then Some([])
    else match OctetAt(s)
      case None => None
      case Some(b) =>
        match OctetsAt(s[3..], n - 1)
        case None => None
        case Some(rest) => Some([b] + rest)
  }

  /** How many octets a UTF-8 sequence led by b has, or 0 when b cannot lead one. */
  function SequenceLength(b: nat): nat {
    if b < 0x80 then 1
    else if 0xC0 <= b < 0xE0 then 2
    else if 0xE0 <= b < 0xF0 then 3
    else if 0xF0 <= b < 0xF8 then 4
    else 0
  }

  predicate IsContinuation(b: nat) { 0x80 <= b < 0xC0 }

  /**
   * The code point of one UTF-8 sequence; None when a trailing octet is not
   * 10xxxxxx, the form is overlong, or the value is a surrogate or above U+10FFFF.
   */
  function DecodeUtf8(bytes: seq<nat>): Option<char>
    requires 1 <= |bytes| <= 4 && SequenceLength(bytes[0]) == |bytes|
  {
    if |bytes| == 1 then Some(bytes[0] as char)
    else if exists i :: 1 <= i < |bytes| && !IsContinuation(bytes[i]) then None
    else if |bytes| == 2 then
      var cp := (bytes[0] - 0xC0) * 64 + (bytes[1] - 0x80);
      if 0x80 <= cp then Some(cp as char) else None
    else if |bytes| == 3 then
      var cp := (bytes[0] - 0xE0) * 4096 + (bytes[1] - 0x80) * 64 + (bytes[2] - 0x80);
      if 0x800 <= cp && !(0xD800 <= cp <= 0xDFFF) then Some(cp as char) else None
    else
      var cp := (bytes[0] - 0xF0) * 262144 + (bytes[1] - 0x80) * 4096 + (bytes[2] - 0x80) * 64 + (bytes[3] - 0x80);
      if 0x1_0000 <= cp <= 0x10_FFFF then Some(cp as char) else None
  }

  function Cons(c: char, r: Option<string>): Option<string> {
    if r.Some? then Some([c] + r.value) else None
  }

  /** decodeURIComponent; None where JavaScript throws URIError. */
  function DecodeURIComponent(s: string): Option<string>
    decreases |s|
  {
    if s == [] then Some([])
    else if s[0] != '%' then Cons(s[0], DecodeURIComponent(s[1..]))
    else match OctetAt(s)
      case None => None
      case Some(b) =>
        var n := SequenceLength(b);
        if n == 0 then None
        else match OctetsAt(s, n)
          case None => None
          case Some(bytes) =>
            match DecodeUtf8(bytes)
            case None => None
            case Some(c) => Cons(c, DecodeURIComponent(s[3 * n..]))
  }

  lemma HexRoundTrip(d: nat)
    requires d < 16
    ensures HexValue(HexDigit(d)) == Some(d)
  {
  }

  /** Escaped octets read back as themselves, and the rest of the string follows them. */
  lemma {:induction false} OctetsAtPercentOctets(bytes: seq<nat>, t: string)
    requires forall i :: 0 <= i < |bytes| ==> IsOctet(bytes[i])
    ensures OctetsAt(PercentOctets(bytes) + t, |bytes|) == Some(bytes)
    ensures (PercentOctets(bytes) + t)[3 * |bytes|..] == t
  {
    if bytes != [] {
      var b := bytes[0];
      var s := PercentOctets(bytes) + t;
      HexRoundTrip(b / 16);
      HexRoundTrip(b % 16);
      assert s[..3] == ['%', HexDigit(b / 16), HexDigit(b % 16)];
      assert OctetAt(s) == Some(b);
      assert s[3..] == PercentOctets(bytes[1..]) + t;
      OctetsAtPercentOctets(bytes[1..], t);
      assert [b] + bytes[1..] == bytes;
    }
  }

  /** The UTF-8 octets of a code point decode to that code point. */
  lemma Utf8RoundTrip(c: char)
    ensures SequenceLength(Utf8(c)[0]) == |Utf8(c)|
    ensures DecodeUtf8(Utf8(c)) == Some(c)
  {
    var cp := c as int;
    var bytes := Utf8(c);
    if cp < 0x80 {
    } else if cp < 0x800 {
      assert cp == (cp / 64) * 64 + cp % 64;
    } else if cp < 0x1_0000 {
      var q := cp / 64;
      assert cp == q * 64 + cp % 64;
      assert q == (q / 64) * 64 + q % 64;
      assert q / 64 == cp / 4096;
    } else {
      var q := cp / 64;
      var q2 := q / 64;
      assert cp == q * 64 + cp % 64;
      assert q == q2 * 64 + q % 64;
      assert q2 == (q2 / 64) * 64 + q2 % 64;
      assert q2 == cp / 4096;
      assert q2 / 64 == cp / 262144;
    }
  }

  /** Decoding one encoded character and then the rest. */
  lemma DecodeEncodedChar(c: char, t: string)
    ensures DecodeURIComponent(EncodeChar(c) + t) == Cons(c, DecodeURIComponent(t))
  {
    var s := EncodeChar(c) + t;
    if IsUnescaped(c) {
      assert s[0] == c && s[1..] == t;
    } else {
      var bytes := Utf8(c);
      OctetsAtPercentOctets(bytes, t);
      Utf8RoundTrip(c);
      assert OctetAt(s) == Some(bytes[0]);
      assert s[0] == '%';
    }
  }

  /** decodeURIComponent undoes encodeURIComponent on every string. */
  lemma {:induction false} DecodeEncode(s: string)
    ensures DecodeURIComponent(EncodeURIComponent(s)) == Some(s)
  {
    if s != [] {
      DecodeEncode(s[1..]);
      DecodeEncodedChar(s[0], EncodeURIComponent(s[1..]));
      assert [s[0]] + s[1..] == s;
    }
  }

  /** A string without '%' decodes to itself. */
  lemma {:induction false} DecodeUnescaped(s: string)
    requires '%' !in s
    ensures DecodeURIComponent(s) == Some(s)
    decreases |s|
  {
    if s != [] {
      assert s[0] in s;
      assert forall i :: 1 <= i < |s| ==> s[i] == s[1..][i - 1];
      assert '%' !in s[1..];
      DecodeUnescaped(s[1..]);
      assert [s[0]] + s[1..] == s;
    }
  }

  /**
   * Decoding never lengthens a string, and shortens every string that holds
   * a '%': each escape sequence of three or more characters becomes one.
   */
  lemma {:induction false} DecodeShrinks(s: string)
    ensures DecodeURIComponent(s).Some? ==> |DecodeURIComponent(s).value| <= |s|
    ensures DecodeURIComponent(s).Some? && '%' in s ==> |DecodeURIComponent(s).value| < |s|
    decreases |s|
  {
    if s != [] {
      if s[0] != '%' {
        DecodeShrinks(s[1..]);
        if '%' in s {
          var i :| 0 <= i < |s| && s[i] == '%';
          assert s[1..][i - 1] == '%';
        }
      } else if OctetAt(s).Some? {
        var n := SequenceLength(OctetAt(s).value);
        if n != 0 && OctetsAt(s, n).Some? {
          OctetsAtLength(s, n);
          DecodeShrinks(s[3 * n..]);
        }
      }
    }
  }

  /** Octets read from n escapes took 3n characters. */
  lemma {:induction false} OctetsAtLength(s: string, n: nat)
    requires OctetsAt(s, n).Some?
    ensures 3 * n <= |s| && |OctetsAt(s, n).value| == n
    decreases n
  {
    if n > 0 {
      OctetsAtLength(s[3..], n - 1);
    }
  }

  /** decodeURIComponent leaves a string as it is exactly when the string holds no '%'. */
  lemma DecodeIsIdentityIff(s: string)
    ensures DecodeURIComponent(s) == Some(s) <==> '%' !in s
  {
    DecodeShrinks(s);
    if '%' !in s {
      DecodeUnescaped(s);
    }
  }
}
