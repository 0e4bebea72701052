/** ECMAScript's `encodeURIComponent`: every character outside the unreserved set is
    written as the `%XX` escapes of its UTF-8 bytes (RFC 3986, section 2.1, and RFC 3629,
    section 3). A percent-decoder, its inverse on bytes, states the round trip. */
module UriComponent {

  /** The characters `encodeURIComponent` leaves alone: ASCII letters and digits and
      `- _ . ! ~ * ' ( )`. */
  predicate IsUnreserved(c: char) {
    ('A' <= c <= 'Z') || ('a' <= c <= 'z') || ('0' <= c <= '9') || c in "-_.!~*'()"
  }

  predicate IsByte(n: int) {
    0 <= n < 256
  }

  predicate AllBytes(bs: seq<int>) {
    forall i :: 0 <= i < |bs| ==> IsByte(bs[i])
  }

  // ----------------------------------------------------------------------------
  // UTF-8

  /** The UTF-8 encoding of one Unicode scalar value (RFC 3629, section 3). */
  function Utf8(c: char): (bs: seq<int>)
    ensures 1 <= |bs| <= 4 && AllBytes(bs)
    ensures |bs| == 1 <==> c as int < 0x80
    ensures c as int < 0x80 ==> bs == [c as int]
  {
    var cp := c as int;
    if cp < 0x80 then [cp]
    else if cp < 0x800 then [0xC0 + cp / 0x40, 0x80 + cp % 0x40]
    else if cp < 0x1_0000 then [0xE0 + cp / 0x1000, 0x80 + cp / 0x40 % 0x40, 0x80 + cp % 0x40]
    else [0xF0 + cp / 0x4_0000, 0x80 + cp / 0x1000 % 0x40, 0x80 + cp / 0x40 % 0x40, 0x80 + cp % 0x40]
  }

  /** The UTF-8 encoding of a whole string. */
  function Utf8String(s: string): (bs: seq<int>)
    ensures AllBytes(bs)
    ensures |bs| >= |s|
  {
    if s == [] then [] else Utf8(s[0]) + Utf8String(s[1..])
  }

  // ----------------------------------------------------------------------------
  // Percent-encoding

  /** The upper-case hexadecimal digit of a value below 16. */
  function HexDigit(n: int): (c: char)
    requires 0 <= n < 16
    ensures IsUnreserved(c) && c != '%'
    ensures HexValue(c) == n
  {
    if n < 10 then ('0' as int + n) as char else ('A' as int + n - 10) as char
  }

  predicate IsHexDigit(c: char) {
    ('0' <= c <= '9') || ('A' <= c <= 'F') || ('a' <= c <= 'f')
  }

  function HexValue(c: char): int {
    if '0' <= c <= '9' then c as int - '0' as int
    else if 'A' <= c <= 'F' then c as int - 'A' as int + 10
    else if 'a' <= c <= 'f' then c as int - 'a' as int + 10
    else 0
  }

  /** `%XX` for one byte, with upper-case hexadecimal digits. */
  function Escape(b: int): (e: string)
    requires IsByte(b)
    ensures |e| == 3 && e[0] == '%' && IsHexDigit(e[1]) && IsHexDigit(e[2])
    ensures HexValue(e[1]) * 16 + HexValue(e[2]) == b
    ensures forall i :: 0 <= i < |e| ==> IsUnreserved(e[i]) || e[i] == '%'
  {
    ['%', HexDigit(b / 16), HexDigit(b % 16)]
  }

  /** `%XX` for each byte. */
  function PercentEscapes(bs: seq<int>): (r: string)
    requires AllBytes(bs)
    ensures |r| == 3 * |bs|
    ensures forall i :: 0 <= i < |r| ==> IsUnreserved(r[i]) || r[i] == '%'
  {
    if bs == [] then [] else Escape(bs[0]) + PercentEscapes(bs[1..])
  }

  function EncodeChar(c: char): (r: string)
    ensures r != []
    ensures forall i :: 0 <= i < |r| ==> IsUnreserved(r[i]) || r[i] == '%'
  {
    if IsUnreserved(c) then [c] else PercentEscapes(Utf8(c))
  }

  /** `encodeURIComponent(s)` for a string of Unicode scalar values; such a string has
      no lone surrogate, the one input on which `encodeURIComponent` throws. */
  function EncodeUriComponent(s: string): (r: string)
    ensures |r| >= |s|
    ensures forall i :: 0 <= i < |r| ==> IsUnreserved(r[i]) || r[i] == '%'
    ensures (forall i :: 0 <= i < |s| ==> IsUnreserved(s[i])) ==> r == s
  {
    if s == [] then [] else EncodeChar(s[0]) + EncodeUriComponent(s[1..])
  }

  // ----------------------------------------------------------------------------
  // Decoding: the inverse of encoding on bytes, used to state the round trip

  /** The bytes a percent-encoded string stands for: each `%XX` is the byte XX, every
      other character stands for its own code. */
  function PercentDecode(s: string): seq<int>
  {
    if s == [] then []
    else if |s| >= 3 && s[0] == '%' && IsHexDigit(s[1]) && IsHexDigit(s[2]) then
      [HexValue(s[1]) * 16 + HexValue(s[2])] + PercentDecode(s[3..])
    else [s[0] as int] + PercentDecode(s[1..])
  }

  /** One escape decodes to the byte it was made from. */
  lemma DecodeEscape(b: int, rest: string)
    requires IsByte(b)
    ensures PercentDecode(Escape(b) + rest) == [b] + PercentDecode(rest)
  {
    var e := Escape(b);
    var s := e + rest;
    assert s[0] == '%' && s[1] == e[1] && s[2] == e[2] && s[3..] == rest;
  }

  lemma {:induction false} DecodePercentEscapes(bs: seq<int>, rest: string)
    requires AllBytes(bs)
    ensures PercentDecode(PercentEscapes(bs) + rest) == bs + PercentDecode(rest)
  {
    if bs == [] {
      assert PercentEscapes(bs) + rest == rest;
    } else {
      var b := bs[0];
      var tail := PercentEscapes(bs[1..]) + rest;
      assert PercentEscapes(bs) + rest == Escape(b) + tail;
      DecodeEscape(b, tail);
      DecodePercentEscapes(bs[1..], rest);
      ConsTail(bs, PercentDecode(rest));
    }
  }

  lemma ConsTail(xs: seq<int>, ys: seq<int>)
    requires xs != []
    ensures [xs[0]] + (xs[1..] + ys) == xs + ys
  {
    assert xs == [xs[0]] + xs[1..];
  }

  lemma DecodeEncodeChar(c: char, rest: string)
    ensures PercentDecode(EncodeChar(c) + rest) == Utf8(c) + PercentDecode(rest)
  {
    if IsUnreserved(c) {
      assert ([c] + rest)[1..] == rest;
    } else {
      DecodePercentEscapes(Utf8(c), rest);
    }
  }

  /** Decoding the escapes gives back exactly the UTF-8 bytes of the input. */
  lemma {:induction false} DecodeEncode(s: string)
    ensures PercentDecode(EncodeUriComponent(s)) == Utf8String(s)
  {
    if s != [] {
      DecodeEncodeChar(s[0], EncodeUriComponent(s[1..]));
      DecodeEncode(s[1..]);
    }
  }
}
