/**
 * `encodeURIComponent`: every character outside a small unreserved set is
 * replaced by the percent-encoded bytes of its UTF-8 form.
 */
module Uri {

  /** The characters `encodeURIComponent` leaves as they are. */
  predicate Unreserved(c: char) {
    || ('A' <= c <= 'Z') || ('a' <= c <= 'z') || ('0' <= c <= '9')
    || c == '-' || c == '_' || c == '.' || c == '!' || c == '~' || c == '*'
    || c == '\'' || c == '(' || c == ')'
  }

  /** An upper-case hexadecimal digit, as the escapes use. */
  predicate IsHexDigit(c: char) {
    ('0' <= c <= '9') || ('A' <= c <= 'F')
  }

  function HexDigit(n: nat): (c: char)
    requires n < 16
    ensures IsHexDigit(c)
  {
    if n < 10 then ('0' as int + n) as char else ('A' as int + n - 10) as char
  }

  /** The value of a hexadecimal digit in either case; 0 for anything else. */
  function HexValue(c: char): (n: nat)
    ensures n < 16
  {
    if '0' <= c <= '9' then c as int - '0' as int
    else if 'A' <= c <= 'F' then c as int - 'A' as int + 10
    else if 'a' <= c <= 'f' then c as int - 'a' as int + 10
    else 0
  }

  lemma HexDigitValue(n: nat)
    requires n < 16
    ensures HexValue(HexDigit(n)) == n
  {
  }

  /** The UTF-8 encoding of a character's code point: one to four bytes. */
  function Utf8(c: char): (bytes: seq<nat>)
    ensures 1 <= |bytes| <= 4
    ensures forall i :: 0 <= i < |bytes| ==> bytes[i] < 256
    ensures |bytes| == 1 <==> (c as int) < 0x80
  {
    var v := c as int;
    if v < 0x80 then [v]
    else if v < 0x800 then [0xC0 + v / 0x40, 0x80 + v % 0x40]
    else if v < 0x1_0000 then [0xE0 + v / 0x1000, 0x80 + (v / 0x40) % 0x40, 0x80 + v % 0x40]
    else [0xF0 + v / 0x4_0000, 0x80 + (v / 0x1000) % 0x40, 0x80 + (v / 0x40) % 0x40, 0x80 + v % 0x40]
  }

  /** Reading a code point back from its UTF-8 bytes. */
  function Utf8Value(bytes: seq<nat>): int
    requires 1 <= |bytes| <= 4
  {
    if |bytes| == 1 then bytes[0]
    else if |bytes| == 2 then (bytes[0] as int - 0xC0) * 0x40 + (bytes[1] as int - 0x80)
    else if |bytes| == 3 then (bytes[0] as int - 0xE0) * 0x1000 + (bytes[1] as int - 0x80) * 0x40 + (bytes[2] as int - 0x80)
    else (bytes[0] as int - 0xF0) * 0x4_0000 + (bytes[1] as int - 0x80) * 0x1000 + (bytes[2] as int - 0x80) * 0x40 + (bytes[3] as int - 0x80)
  }

  /** The bytes are a UTF-8 sequence: a lead byte of the right kind for the
      length, then continuation bytes 0x80 to 0xBF, and they give the code
      point back. */
  lemma Utf8RoundTrip(c: char)
    ensures var b := Utf8(c);
      && Utf8Value(b) == c as int
      && (|b| == 1 ==> b[0] < 0x80)
      && (|b| == 2 ==> 0xC0 <= b[0] < 0xE0)
      && (|b| == 3 ==> 0xE0 <= b[0] < 0xF0)
      && (|b| == 4 ==> 0xF0 <= b[0] < 0xF8)
      && (forall i :: 1 <= i < |b| ==> 0x80 <= b[i] < 0xC0)
  {
    var v := c as int;
    assert v < 0x11_0000;
    if 0x80 <= v < 0x800 {
      assert v == (v / 0x40) * 0x40 + v % 0x40;
    } else if 0x800 <= v < 0x1_0000 {
      assert v / 0x40 == (v / 0x1000) * 0x40 + (v / 0x40) % 0x40;
      assert v == (v / 0x40) * 0x40 + v % 0x40;
    } else if 0x1_0000 <= v {
      assert v / 0x1000 == (v / 0x4_0000) * 0x40 + (v / 0x1000) % 0x40;
      assert v / 0x40 == (v / 0x1000) * 0x40 + (v / 0x40) % 0x40;
      assert v == (v / 0x40) * 0x40 + v % 0x40;
    }
  }

  /** Each byte as "%" and two upper-case hexadecimal digits. */
  function Percent(bytes: seq<nat>): (r: string)
    requires forall i :: 0 <= i < |bytes| ==> bytes[i] < 256
    ensures |r| == 3 * |bytes|
  {
    if bytes == [] then []
    else ['%', HexDigit(bytes[0] / 16), HexDigit(bytes[0] % 16)] + Percent(bytes[1..])
  }

  /** One character of the encoding: itself when unreserved, otherwise the
      escapes of its UTF-8 bytes. */
  function EncodeChar(c: char): (r: string)
    ensures |r| == 1 <==> Unreserved(c)
    ensures Unreserved(c) || (|r| == 3 * |Utf8(c)| && r[0] == '%')
  {
    if Unreserved(c) then [c] else Percent(Utf8(c))
  }

  /** `encodeURIComponent(s)`. */
  function EncodeURIComponent(s: string): (r: string)
    ensures |s| <= |r|
    ensures |r| == |s| <==> forall i :: 0 <= i < |s| ==> Unreserved(s[i])
  {
    if s == [] then []
    else
      var r := EncodeChar(s[0]) + EncodeURIComponent(s[1..]);
      assert forall i :: 1 <= i < |s| ==> s[i] == s[1..][i - 1];
      r
  }

  /** What may appear in an encoded component: unreserved characters, and
      "%" followed by two hexadecimal digits. */
  predicate UriSafe(r: string) {
    forall i :: 0 <= i < |r| ==> Unreserved(r[i]) || r[i] == '%' || IsHexDigit(r[i])
  }

  lemma {:induction false} PercentSafe(bytes: seq<nat>)
    requires forall i :: 0 <= i < |bytes| ==> bytes[i] < 256
    ensures UriSafe(Percent(bytes))
  {
    if bytes != [] {
      PercentSafe(bytes[1..]);
    }
  }

  /** The encoding only produces characters that are safe in a URL path. */
  lemma {:induction false} EncodeSafe(s: string)
    ensures UriSafe(EncodeURIComponent(s))
  {
    if s != [] {
      EncodeSafe(s[1..]);
      if !Unreserved(s[0]) {
        PercentSafe(Utf8(s[0]));
      }
    }
  }

  /** A string of unreserved characters is its own encoding. */
  lemma {:induction false} EncodeUnreserved(s: string)
    requires forall i :: 0 <= i < |s| ==> Unreserved(s[i])
    ensures EncodeURIComponent(s) == s
  {
    if s != [] {
      EncodeUnreserved(s[1..]);
    }
  }

  /** A space becomes "%20". */
  lemma EncodeSpace()
    ensures EncodeChar(' ') == "%20"
  {
    assert Utf8(' ') == [0x20];
  }

  /** Encoding distributes over concatenation. */
  lemma {:induction false} EncodeAppend(a: string, b: string)
    ensures EncodeURIComponent(a + b) == EncodeURIComponent(a) + EncodeURIComponent(b)
  {
    if a == [] {
      assert a + b == b;
    } else {
      assert (a + b)[1..] == a[1..] + b;
      EncodeAppend(a[1..], b);
    }
  }

  /** Decoding of escapes that stand for single bytes below 0x80, which is
      all the encoding of an ASCII string contains. */
  function DecodeAscii(r: string): (s: string)
    ensures |s| <= |r|
  {
    if r == [] then []
    else if r[0] == '%' && |r| >= 3 then
      [(HexValue(r[1]) * 16 + HexValue(r[2])) as char] + DecodeAscii(r[3..])
    else [r[0]] + DecodeAscii(r[1..])
  }

  /** An ASCII string comes back from its encoding. */
  lemma {:induction false} AsciiRoundTrip(s: string)
    requires forall i :: 0 <= i < |s| ==> (s[i] as int) < 0x80
    ensures DecodeAscii(EncodeURIComponent(s)) == s
  {
    if s != [] {
      var c := s[0];
      var rest := EncodeURIComponent(s[1..]);
      AsciiRoundTrip(s[1..]);
      if Unreserved(c) {
        assert ([c] + rest)[1..] == rest;
      } else {
        var v := c as int;
        assert Utf8(c) == [v];
        var esc := ['%', HexDigit(v / 16), HexDigit(v % 16)];
        assert Percent([v]) == esc;
        HexDigitValue(v / 16);
        HexDigitValue(v % 16);
        assert (esc + rest)[3..] == rest;
      }
    }
  }
}
