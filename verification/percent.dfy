/** Percent-decoding of the source URL in a directive path: section 2.1 of
    RFC 3986 (`%` followed by two hex digits stands for one octet), followed
    by strict UTF-8 validation of the octets, as `percent_decode_str(..)
    .decode_utf8()` does.  The UTF-8 rules are those of RFC 3629, section 4
    (no overlong forms, no surrogates, nothing above U+10FFFF). */
module PercentDecoding {
  import opened Wrappers
  import opened Text

  function HexValue(c: char): (v: nat)
    requires IsAsciiHexDigit(c)
    ensures v < 16
  {
    if '0' <= c <= '9' then c as int - '0' as int
    else if 'a' <= c <= 'f' then c as int - 'a' as int + 10
    else c as int - 'A' as int + 10
  }

  function HexDigit(v: nat): (c: char)
    requires v < 16
    ensures IsAsciiHexDigit(c) && HexValue(c) == v
  {
    if v < 10 then ('0' as int + v) as char else ('A' as int + v - 10) as char
  }

  // ---------------------------------------------------------------- UTF-8

  /** The UTF-8 form of one scalar value. */
  function EncodeChar(c: char): (b: seq<u8>)
    ensures 1 <= |b| <= 4
  {
    var n := c as int;
    if n < 0x80 then [n]
    else if n < 0x800 then [0xC0 + n / 0x40, 0x80 + n % 0x40]
    else if n < 0x1_0000 then [0xE0 + n / 0x1000, 0x80 + (n / 0x40) % 0x40, 0x80 + n % 0x40]
    else [0xF0 + n / 0x4_0000, 0x80 + (n / 0x1000) % 0x40, 0x80 + (n / 0x40) % 0x40, 0x80 + n % 0x40]
  }

  /** The UTF-8 bytes of a string, as Rust stores a `&str`. */
  function EncodeUtf8(s: string): seq<u8>
  {
    if |s| == 0 then [] else EncodeChar(s[0]) + EncodeUtf8(s[1..])
  }

  predicate IsContinuation(b: u8) {
    0x80 <= b <= 0xBF
  }

  /** The restricted range of the second byte after a three- or four-byte
      lead byte (this excludes overlong forms, surrogates and values above
      U+10FFFF). */
  predicate SecondByteOk(b0: u8, b1: u8) {
    if b0 == 0xE0 then 0xA0 <= b1 <= 0xBF
    else if b0 == 0xED then 0x80 <= b1 <= 0x9F
    else if b0 == 0xF0 then 0x90 <= b1 <= 0xBF
    else if b0 == 0xF4 then 0x80 <= b1 <= 0x8F
    else IsContinuation(b1)
  }

  /** Length of the well-formed sequence that starts `b`, or 0 when `b`
      does not start with one. */
  function SequenceLength(b: seq<u8>): (n: nat)
    ensures n <= |b| && n <= 4
    ensures |b| > 0 && b[0] < 0x80 ==> n == 1
  {
    if |b| == 0 then 0
    else if b[0] < 0x80 then 1
    else if 0xC2 <= b[0] <= 0xDF then
      (if |b| >= 2 && IsContinuation(b[1]) then 2 else 0)
    else if 0xE0 <= b[0] <= 0xEF then
      (if |b| >= 3 && SecondByteOk(b[0], b[1]) && IsContinuation(b[2]) then 3 else 0)
    else if 0xF0 <= b[0] <= 0xF4 then
      (if |b| >= 4 && SecondByteOk(b[0], b[1]) && IsContinuation(b[2]) && IsContinuation(b[3]) then 4 else 0)
    else 0
  }

  predicate IsScalar(n: int) {
    (0 <= n < 0xD800) || (0xE000 <= n < 0x11_0000)
  }

  /** The scalar value that the well-formed sequence at the start of `b` encodes. */
  function ScalarAt(b: seq<u8>): (v: int)
    requires SequenceLength(b) > 0
    ensures IsScalar(v)
  {
    var n := SequenceLength(b);
    var b0: int := b[0];
    if n == 1 then b0
    else
      var b1: int := b[1];
      if n == 2 then (b0 - 0xC0) * 0x40 + (b1 - 0x80)
      else
        var b2: int := b[2];
        if n == 3 then (b0 - 0xE0) * 0x1000 + (b1 - 0x80) * 0x40 + (b2 - 0x80)
        else
          var b3: int := b[3];
          (b0 - 0xF0) * 0x4_0000 + (b1 - 0x80) * 0x1000 + (b2 - 0x80) * 0x40 + (b3 - 0x80)
  }

  /** `str::from_utf8`: the decoded text, or None when the bytes are not
      well-formed UTF-8. */
  function DecodeUtf8(b: seq<u8>): (r: Option<string>)
    decreases |b|
  {
    if |b| == 0 then Some([])
    else
      var n := SequenceLength(b);
      if n == 0 then None
      else
        match DecodeUtf8(b[n..])
        case None => None
        case Some(rest) => Some([ScalarAt(b) as char] + rest)
  }

  lemma TwoByteForm(n: int)
    requires 0x80 <= n < 0x800
    ensures 0xC2 <= 0xC0 + n / 0x40 <= 0xDF && 0 <= n % 0x40 < 0x40
    ensures (n / 0x40) * 0x40 + n % 0x40 == n
  {
  }

  lemma ThreeByteForm(n: int)
    requires 0x800 <= n < 0x1_0000 && IsScalar(n)
    ensures 0xE0 <= 0xE0 + n / 0x1000 <= 0xEF
    ensures n / 0x1000 == 0 ==> 0x20 <= (n / 0x40) % 0x40
    ensures n / 0x1000 == 0xD ==> (n / 0x40) % 0x40 < 0x20
    ensures (n / 0x1000) * 0x1000 + ((n / 0x40) % 0x40) * 0x40 + n % 0x40 == n
  {
    var q := n / 0x40;
    assert q * 0x40 + n % 0x40 == n;
    assert (q / 0x40) * 0x40 + q % 0x40 == q;
    assert q / 0x40 == n / 0x1000;
  }

  lemma FourByteForm(n: int)
    requires 0x1_0000 <= n < 0x11_0000
    ensures 0xF0 <= 0xF0 + n / 0x4_0000 <= 0xF4
    ensures n / 0x4_0000 == 0 ==> 0x10 <= (n / 0x1000) % 0x40
    ensures n / 0x4_0000 == 4 ==> (n / 0x1000) % 0x40 < 0x10
    ensures (n / 0x4_0000) * 0x4_0000 + ((n / 0x1000) % 0x40) * 0x1000
            + ((n / 0x40) % 0x40) * 0x40 + n % 0x40 == n
  {
    var q := n / 0x40;
    var p := q / 0x40;
    assert q * 0x40 + n % 0x40 == n;
    assert p * 0x40 + q % 0x40 == q;
    assert (p / 0x40) * 0x40 + p % 0x40 == p;
    assert p == n / 0x1000;
    assert p / 0x40 == n / 0x4_0000;
  }

  lemma EncodeCharLeads(c: char, rest: seq<u8>)
    ensures SequenceLength(EncodeChar(c) + rest) == |EncodeChar(c)|
    ensures ScalarAt(EncodeChar(c) + rest) == c as int
  {
    var n := c as int;
    if n < 0x80 {
    } else if n < 0x800 {
      TwoByteForm(n);
    } else if n < 0x1_0000 {
      ThreeByteForm(n);
    } else {
      FourByteForm(n);
    }
  }

  /** Decoding undoes encoding: every string survives the trip through UTF-8. */
  lemma {:induction false} DecodeEncodeUtf8(s: string)
    ensures DecodeUtf8(EncodeUtf8(s)) == Some(s)
  {
    if |s| > 0 {
      var head := EncodeChar(s[0]);
      var tail := EncodeUtf8(s[1..]);
      EncodeCharLeads(s[0], tail);
      assert (head + tail)[|head|..] == tail;
      DecodeEncodeUtf8(s[1..]);
      assert s == [s[0]] + s[1..];
    }
  }

  // ------------------------------------------------------- percent-decoding

  /** `percent_decode_str(s)`: a `%` followed by two hex digits becomes the
      octet they spell; any other character, a lone `%` included, stands for
      its own UTF-8 bytes. */
  function PercentDecode(s: string): seq<u8>
    decreases |s|
  {
    if |s| == 0 then []
    else if s[0] == '%' && |s| >= 3 && IsAsciiHexDigit(s[1]) && IsAsciiHexDigit(s[2]) then
      [HexValue(s[1]) * 16 + HexValue(s[2])] + PercentDecode(s[3..])
    else
      EncodeChar(s[0]) + PercentDecode(s[1..])
  }

  /** The source URL as `parse_rest` recovers it. */
  function DecodeSourceUrl(s: string): Option<string>
  {
    DecodeUtf8(PercentDecode(s))
  }

  /** Section 2.1 of RFC 3986 written the other way: every octet as `%HH`. */
  function PercentEncodeBytes(b: seq<u8>): (s: string)
    ensures |s| == 3 * |b|
  {
    if |b| == 0 then "" else ['%', HexDigit(b[0] / 16), HexDigit(b[0] % 16)] + PercentEncodeBytes(b[1..])
  }

  lemma {:induction false} DecodeEncodeBytes(b: seq<u8>)
    ensures PercentDecode(PercentEncodeBytes(b)) == b
  {
    if |b| > 0 {
      var s := PercentEncodeBytes(b);
      assert s[3..] == PercentEncodeBytes(b[1..]);
      DecodeEncodeBytes(b[1..]);
      assert b == [b[0]] + b[1..];
    }
  }

  /** A URL written entirely in `%HH` form decodes to itself. */
  lemma EncodedUrlRoundTrip(u: string)
    ensures DecodeSourceUrl(PercentEncodeBytes(EncodeUtf8(u))) == Some(u)
  {
    DecodeEncodeBytes(EncodeUtf8(u));
    DecodeEncodeUtf8(u);
  }

  lemma {:induction false} PlainDecodesToBytes(s: string)
    requires '%' !in s
    ensures PercentDecode(s) == EncodeUtf8(s)
  {
    if |s| > 0 {
      PlainDecodesToBytes(s[1..]);
    }
  }

  /** A URL with no `%` in it passes through unchanged. */
  lemma PlainUrlUnchanged(s: string)
    requires '%' !in s
    ensures DecodeSourceUrl(s) == Some(s)
  {
    PlainDecodesToBytes(s);
    DecodeEncodeUtf8(s);
  }

  /** An escaped octet that cannot start a UTF-8 sequence makes the URL
      undecodable (the request is then a bad request). */
  lemma InvalidOctetRejected(prefix: string)
    requires '%' !in prefix
    ensures DecodeSourceUrl(prefix + "%FF").None?
  {
    PlainDecodesToBytes(prefix);
    assert PercentDecode(prefix + "%FF") == EncodeUtf8(prefix) + [0xFF] by {
      DecodeAppend(prefix, "%FF");
    }
    DecodeInvalidTail(prefix);
  }

  lemma {:induction false} DecodeAppend(s: string, t: string)
    requires '%' !in s
    ensures PercentDecode(s + t) == PercentDecode(s) + PercentDecode(t)
  {
    if |s| > 0 {
      assert (s + t)[1..] == s[1..] + t;
      DecodeAppend(s[1..], t);
    } else {
      assert s + t == t;
    }
  }

  lemma {:induction false} DecodeInvalidTail(s: string)
    ensures DecodeUtf8(EncodeUtf8(s) + [0xFF]).None?
  {
    if |s| == 0 {
      assert EncodeUtf8(s) + [0xFF] == [0xFF];
    } else {
      var head := EncodeChar(s[0]);
      var tail := EncodeUtf8(s[1..]) + [0xFF];
      assert EncodeUtf8(s) + [0xFF] == head + tail;
      EncodeCharLeads(s[0], tail);
      assert (head + tail)[|head|..] == tail;
      DecodeInvalidTail(s[1..]);
    }
  }
}
