/**
 * ECMAScript `encodeURIComponent` and `decodeURIComponent` (section 19.2.6 of
 * ECMA-262), with code points encoded as UTF-8 before percent-escaping, and
 * the `key=value&key=value` query strings the login link is made of.
 */
module Uri {
  import opened Wrappers
  import Text

  type Byte = b: int | 0 <= b < 256

  /** The characters `encodeURIComponent` leaves as they are: the unreserved
      set of section 2.3 of RFC 3986 plus `! * ' ( )`. */
  predicate IsUnescaped(c: char) {
    || ('A' <= c <= 'Z') || ('a' <= c <= 'z') || ('0' <= c <= '9')
    || c == '-' || c == '_' || c == '.' || c == '~'
    || c == '!' || c == '*' || c == '\'' || c == '(' || c == ')'
  }

  /** UTF-8 encoding of one code point (section 3 of RFC 3629). */
  function Utf8(c: char): (bs: seq<Byte>)
    ensures 1 <= |bs| <= 4
  {
    var n := c as int;
    if n < 0x80 then [n]
    else if n < 0x800 then [0xC0 + n / 64, 0x80 + n % 64]
    else if n < 0x10000 then [0xE0 + n / 4096, 0x80 + (n / 64) % 64, 0x80 + n % 64]
    else [0xF0 + n / 262144, 0x80 + (n / 4096) % 64, 0x80 + (n / 64) % 64, 0x80 + n % 64]
  }

  /** The length of the UTF-8 sequence a lead byte announces; 0 for a byte
      that cannot start one. */
  function Utf8Length(b: Byte): nat {
    if b < 0x80 then 1
    else if b < 0xC0 then 0
    else if b < 0xE0 then 2
    else if b < 0xF0 then 3
    else if b < 0xF8 then 4
    else 0
  }

  predicate IsContinuation(b: Byte) {
    0x80 <= b < 0xC0
  }

  /** A code point Dafny's `char` can hold: a Unicode scalar value. */
  predicate IsScalar(v: int) {
    (0 <= v < 0xD800) || (0xE000 <= v < 0x110000)
  }

  /** Decodes one complete UTF-8 sequence; None for a malformed, overlong or
      surrogate sequence or one beyond U+10FFFF, which `decodeURIComponent`
      rejects with a URIError. */
  function Utf8Decode(bs: seq<Byte>): Option<char>
    requires 1 <= |bs| && |bs| == Utf8Length(bs[0])
  {
    if |bs| == 1 then Some(bs[0] as char)
    else if exists k :: 1 <= k < |bs| && !IsContinuation(bs[k]) then None
    else
      var b0: int, b1: int := bs[0], bs[1];
      var v :=
        if |bs| == 2 then (b0 - 0xC0) * 64 + (b1 - 0x80)
        else if |bs| == 3 then ((b0 - 0xE0) * 64 + (b1 - 0x80)) * 64 + (bs[2] as int - 0x80)
        else (((b0 - 0xF0) * 64 + (b1 - 0x80)) * 64 + (bs[2] as int - 0x80)) * 64 + (bs[3] as int - 0x80);
      var least := if |bs| == 2 then 0x80 else if |bs| == 3 then 0x800 else 0x10000;
      if least <= v && IsScalar(v) then Some(v as char) else None
  }

  /** Decoding the UTF-8 encoding of a code point gives the code point back. */
  lemma Utf8RoundTrip(c: char)
    ensures Utf8Length(Utf8(c)[0]) == |Utf8(c)|
    ensures Utf8Decode(Utf8(c)) == Some(c)
  {
    var n := c as int;
    if n < 0x80 {
    } else if n < 0x800 {
      Utf8RoundTrip2(c);
    } else if n < 0x10000 {
      Utf8RoundTrip3(c);
    } else {
      Utf8RoundTrip4(c);
    }
  }

  lemma Utf8RoundTrip2(c: char)
    requires 0x80 <= c as int < 0x800
    ensures |Utf8(c)| == 2 && Utf8Length(Utf8(c)[0]) == 2
    ensures Utf8Decode(Utf8(c)) == Some(c)
  {
    var n := c as int;
    assert (n / 64) * 64 + n % 64 == n;
  }

  lemma Utf8RoundTrip3(c: char)
    requires 0x800 <= c as int < 0x10000
    ensures |Utf8(c)| == 3 && Utf8Length(Utf8(c)[0]) == 3
    ensures Utf8Decode(Utf8(c)) == Some(c)
  {
    var n := c as int;
    assert (n / 4096) * 64 + (n / 64) % 64 == n / 64;
    assert (n / 64) * 64 + n % 64 == n;
  }

  lemma Utf8RoundTrip4(c: char)
    requires 0x10000 <= c as int
    ensures |Utf8(c)| == 4 && Utf8Length(Utf8(c)[0]) == 4
    ensures Utf8Decode(Utf8(c)) == Some(c)
  {
    var n := c as int;
    assert (n / 262144) * 64 + (n / 4096) % 64 == n / 4096;
    assert (n / 4096) * 64 + (n / 64) % 64 == n / 64;
    assert (n / 64) * 64 + n % 64 == n;
  }

  /** The upper-case hexadecimal digit `encodeURIComponent` writes. */
  function HexDigit(d: int): char
    requires 0 <= d < 16
  {
    "0123456789ABCDEF"[d]
  }

  /** The value of a hexadecimal digit of either case. */
  function HexValue(c: char): Option<int> {
    if '0' <= c <= '9' then Some(c as int - '0' as int)
    else if 'A' <= c <= 'F' then Some(c as int - 'A' as int + 10)
    else if 'a' <= c <= 'f' then Some(c as int - 'a' as int + 10)
    else None
  }

  lemma HexRoundTrip(d: int)
    requires 0 <= d < 16
    ensures HexValue(HexDigit(d)) == Some(d)
    ensures IsUnescaped(HexDigit(d))
  {
  }

  /** `%XY` for one byte. */
  function PercentByte(b: Byte): string {
    ['%', HexDigit(b / 16), HexDigit(b % 16)]
  }

  function PercentBytes(bs: seq<Byte>): string {
    if bs == [] then "" else PercentByte(bs[0]) + PercentBytes(bs[1..])
  }

  /** `encodeURIComponent` on one character. */
  function EncodeChar(c: char): string {
    if IsUnescaped(c) then [c] else PercentBytes(Utf8(c))
  }

  /** ECMAScript `encodeURIComponent`. No Dafny `char` is a lone surrogate,
      so the URIError that case raises cannot arise. */
  function Encode(s: string): string {
    if s == [] then "" else EncodeChar(s[0]) + Encode(s[1..])
  }

  /** Reads the escape `%XY` at index `i`. */
  function ParseByte(s: string, i: nat): Option<Byte> {
    if i + 3 <= |s| && s[i] == '%' && HexValue(s[i + 1]).Some? && HexValue(s[i + 2]).Some? then
      Some(16 * HexValue(s[i + 1]).value + HexValue(s[i + 2]).value)
    else None
  }

  /** Reads `n` consecutive escapes starting at index `i`. */
  function ParseBytes(s: string, i: nat, n: nat): (r: Option<seq<Byte>>)
    ensures r.Some? ==> |r.value| == n && (n == 0 || i + 3 * n <= |s|)
    decreases n
  {
    if n == 0 then Some([])
    else
      match ParseByte(s, i)
      case None => None
      case Some(b) =>
        match ParseBytes(s, i + 3, n - 1)
        case None => None
        case Some(rest) => Some([b] + rest)
  }

  /** Decodes the escape sequence that starts `s` into one character and the
      number of characters it used. */
  function DecodeEscape(s: string): (r: Option<(char, nat)>)
    ensures r.Some? ==> 3 <= r.value.1 <= |s|
  {
    match ParseByte(s, 0)
    case None => None
    case Some(b0) =>
      var n := Utf8Length(b0);
      if n == 0 then None
      else
        match ParseBytes(s, 0, n)
        case None => None
        case Some(bs) =>
          match Utf8Decode(bs)
          case None => None
          case Some(c) => Some((c, 3 * n))
  }

  /** ECMAScript `decodeURIComponent`; None where it throws a URIError. */
  function Decode(s: string): Option<string>
    decreases |s|
  {
    if s == [] then Some("")
    else if s[0] != '%' then
      match Decode(s[1..])
      case None => None
      case Some(t) => Some([s[0]] + t)
    else
      match DecodeEscape(s)
      case None => None
      case Some((c, used)) =>
        match Decode(s[used..])
        case None => None
        case Some(t) => Some([c] + t)
  }

  lemma {:induction false} ParseBytesAppend(bs: seq<Byte>, rest: string)
    ensures ParseBytes(PercentBytes(bs) + rest, 0, |bs|) == Some(bs)
    decreases |bs|
  {
    if bs != [] {
      var b := bs[0];
      var tail := PercentBytes(bs[1..]) + rest;
      var s := PercentBytes(bs) + rest;
      assert s == PercentByte(b) + tail;
      ParseBytePercent(b, tail);
      ParseBytesAppend(bs[1..], rest);
      ParseBytesShift(PercentByte(b), tail, |bs| - 1);
      assert ParseBytes(s, 3, |bs| - 1) == Some(bs[1..]);
      assert [b] + bs[1..] == bs;
    }
  }

  lemma ParseBytePercent(b: Byte, rest: string)
    ensures ParseByte(PercentByte(b) + rest, 0) == Some(b)
  {
    HexRoundTrip(b / 16);
    HexRoundTrip(b % 16);
    var s := PercentByte(b) + rest;
    assert s[0] == '%' && s[1] == HexDigit(b / 16) && s[2] == HexDigit(b % 16);
  }

  /** The escapes `encodeURIComponent` writes for one character decode to
      that character. */
  lemma DecodeEscapeEncoded(c: char, rest: string)
    ensures DecodeEscape(PercentBytes(Utf8(c)) + rest) == Some((c, 3 * |Utf8(c)|))
  {
    var bs := Utf8(c);
    var s := PercentBytes(bs) + rest;
    Utf8RoundTrip(c);
    ParseBytesAppend(bs, rest);
    assert PercentBytes(bs) == PercentByte(bs[0]) + PercentBytes(bs[1..]);
    assert s == PercentByte(bs[0]) + (PercentBytes(bs[1..]) + rest);
    ParseBytePercent(bs[0], PercentBytes(bs[1..]) + rest);
  }

  /** Escapes read after a prefix of length 3 are read as if the prefix were absent. */
  lemma ParseBytesShift(p: string, s: string, n: nat)
    requires |p| == 3
    ensures ParseBytes(p + s, 3, n) == ParseBytes(s, 0, n)
    decreases n
  {
    if n > 0 {
      ParseBytesShiftAt(p, s, 0, n);
    }
  }

  lemma ParseBytesShiftAt(p: string, s: string, i: nat, n: nat)
    requires |p| == 3
    ensures ParseBytes(p + s, 3 + i, n) == ParseBytes(s, i, n)
    decreases n
  {
    if n > 0 {
      assert ParseByte(p + s, 3 + i) == ParseByte(s, i) by {
        if i + 3 <= |s| {
          assert (p + s)[3 + i] == s[i] && (p + s)[4 + i] == s[i + 1] && (p + s)[5 + i] == s[i + 2];
        }
      }
      ParseBytesShiftAt(p, s, i + 3, n - 1);
    }
  }

  /** The characters of a percent-escaped byte run: `%` and hex digits. */
  lemma PercentBytesCharset(bs: seq<Byte>)
    ensures |PercentBytes(bs)| == 3 * |bs|
    ensures |bs| > 0 ==> PercentBytes(bs)[0] == '%'
    ensures EncodedCharset(PercentBytes(bs))
  {
    if bs != [] {
      HexRoundTrip(bs[0] / 16);
      HexRoundTrip(bs[0] % 16);
      PercentBytesCharset(bs[1..]);
      EncodedCharsetConcat(PercentByte(bs[0]), PercentBytes(bs[1..]));
    }
  }

  /** Only characters `encodeURIComponent` can write: unescaped ones and `%`. */
  predicate EncodedCharset(s: string) {
    forall k :: 0 <= k < |s| ==> IsUnescaped(s[k]) || s[k] == '%'
  }

  lemma EncodedCharsetConcat(a: string, b: string)
    requires EncodedCharset(a) && EncodedCharset(b)
    ensures EncodedCharset(a + b)
  {
    forall k | 0 <= k < |a + b|
      ensures IsUnescaped((a + b)[k]) || (a + b)[k] == '%'
    {
      if k >= |a| {
        assert (a + b)[k] == b[k - |a|];
      }
    }
  }

  /** Decoding the encoding of one character followed by more text yields the
      character and then whatever the rest decodes to. */
  lemma DecodeEncodeChar(c: char, rest: string)
    ensures Decode(EncodeChar(c) + rest) == (match Decode(rest) case None => None case Some(t) => Some([c] + t))
  {
    var s := EncodeChar(c) + rest;
    if IsUnescaped(c) {
      assert s[0] == c && s[1..] == rest;
    } else {
      var bs := Utf8(c);
      PercentBytesCharset(bs);
      DecodeEscapeEncoded(c, rest);
      assert s[0] == '%';
      assert s[3 * |bs|..] == rest;
    }
  }

  /** `decodeURIComponent(encodeURIComponent(s)) === s` for every string. */
  lemma {:induction false} DecodeEncode(s: string)
    ensures Decode(Encode(s)) == Some(s)
    decreases |s|
  {
    if s != [] {
      DecodeEncode(s[1..]);
      DecodeEncodeChar(s[0], Encode(s[1..]));
      assert [s[0]] + s[1..] == s;
    }
  }

  /** Every character `encodeURIComponent` writes is unescaped or `%`; in
      particular no `&` or `=` survives. */
  lemma {:induction false} EncodeCharset(s: string)
    ensures EncodedCharset(Encode(s))
    ensures '&' !in Encode(s) && '=' !in Encode(s)
    decreases |s|
  {
    if s != [] {
      EncodeCharset(s[1..]);
      EncodeCharCharset(s[0]);
      EncodedCharsetConcat(EncodeChar(s[0]), Encode(s[1..]));
    }
    NoSeparators(Encode(s));
  }

  lemma EncodeCharCharset(c: char)
    ensures EncodedCharset(EncodeChar(c))
  {
    if !IsUnescaped(c) {
      PercentBytesCharset(Utf8(c));
    }
  }

  /** Text in the encoded character set holds no query separator. */
  lemma NoSeparators(s: string)
    requires EncodedCharset(s)
    ensures '&' !in s && '=' !in s
  {
    forall k | 0 <= k < |s| ensures s[k] != '&' && s[k] != '=' {
      assert IsUnescaped(s[k]) || s[k] == '%';
    }
  }

  /** One `key=value` component of a query string, both sides encoded. */
  function EncodePair(p: (string, string)): string {
    Encode(p.0) + "=" + Encode(p.1)
  }

  /** The query string `pairs.map(encode k=v).join('&')`. */
  function BuildQuery(pairs: seq<(string, string)>): string {
    Text.Join(seq(|pairs|, k requires 0 <= k < |pairs| => EncodePair(pairs[k])), '&')
  }

  /** Reads one `key=value` component back: exactly one `=`, both sides decoded. */
  function ParsePair(part: string): Option<(string, string)> {
    var kv := Text.Split(part, '=');
    if |kv| != 2 then None
    else
      match (Decode(kv[0]), Decode(kv[1]))
      case (Some(k), Some(v)) => Some((k, v))
      case _ => None
  }

  function ParseParts(parts: seq<string>): Option<seq<(string, string)>> {
    if parts == [] then Some([])
    else
      match (ParsePair(parts[0]), ParseParts(parts[1..]))
      case (Some(p), Some(ps)) => Some([p] + ps)
      case _ => None
  }

  /** Splits a query string on `&`, then each component on `=`, then decodes. */
  function ParseQuery(q: string): Option<seq<(string, string)>> {
    ParseParts(Text.Split(q, '&'))
  }

  lemma PairRoundTrip(p: (string, string))
    ensures '&' !in EncodePair(p)
    ensures ParsePair(EncodePair(p)) == Some(p)
  {
    EncodeCharset(p.0);
    EncodeCharset(p.1);
    DecodeEncode(p.0);
    DecodeEncode(p.1);
    Text.SplitJoin([Encode(p.0), Encode(p.1)], '=');
    assert Text.Join([Encode(p.0), Encode(p.1)], '=') == EncodePair(p);
  }

  lemma {:induction false} ParsePartsRoundTrip(pairs: seq<(string, string)>)
    ensures ParseParts(seq(|pairs|, k requires 0 <= k < |pairs| => EncodePair(pairs[k]))) == Some(pairs)
    decreases |pairs|
  {
    var parts := seq(|pairs|, k requires 0 <= k < |pairs| => EncodePair(pairs[k]));
    if pairs != [] {
      PairRoundTrip(pairs[0]);
      ParsePartsRoundTrip(pairs[1..]);
      assert parts[1..] == seq(|pairs[1..]|, k requires 0 <= k < |pairs[1..]| => EncodePair(pairs[1..][k]));
      assert [pairs[0]] + pairs[1..] == pairs;
    }
  }

  /** Splitting a built query on `&` and `=` and decoding recovers exactly the
      pairs it was built from, in order. */
  lemma QueryRoundTrip(pairs: seq<(string, string)>)
    requires |pairs| >= 1
    ensures ParseQuery(BuildQuery(pairs)) == Some(pairs)
  {
    var parts := seq(|pairs|, k requires 0 <= k < |pairs| => EncodePair(pairs[k]));
    forall k | 0 <= k < |parts|
      ensures '&' !in parts[k]
    {
      PairRoundTrip(pairs[k]);
    }
    Text.SplitJoin(parts, '&');
    ParsePartsRoundTrip(pairs);
  }
}
