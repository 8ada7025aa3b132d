/**
 * `encodeURIComponent`, as section 19.2.6.5 of ECMA-262 defines it: every code
 * point outside the unescaped set (ASCII letters, digits and "-_.!~*'()") is
 * written as the UTF-8 octets of that code point, each as `%` followed by two
 * upper-case hexadecimal digits.
 */
module UriEncoding {

  /** The characters `encodeURIComponent` leaves as they are. */
  predicate IsUnescaped(c: char) {
    'a' <= c <= 'z' || 'A' <= c <= 'Z' || '0' <= c <= '9' ||
    c == '-' || c == '_' || c == '.' || c == '!' || c == '~' || c == '*' ||
    c == '\'' || c == '(' || c == ')'
  }

  predicate IsUpperHex(c: char) {
    '0' <= c <= '9' || 'A' <= c <= 'F'
  }

  /** The alphabet of every string `Encode` produces. */
  predicate IsUriChar(c: char) {
    IsUnescaped(c) || c == '%' || IsUpperHex(c)
  }

  predicate IsByte(b: int) { 0 <= b < 256 }

  /** The UTF-8 octets of one Unicode scalar value. */
  function Utf8(c: char): (r: seq<int>)
    ensures 1 <= |r| <= 4
    ensures forall i :: 0 <= i < |r| ==> IsByte(r[i])
    ensures (c as int < 0x80) <==> |r| == 1
  {
    var cp := c as int;
    if cp < 0x80 then [cp]
    else if cp < 0x800 then [0xC0 + cp / 0x40, 0x80 + cp % 0x40]
    else if cp < 0x1_0000 then [0xE0 + cp / 0x1000, 0x80 + (cp / 0x40) % 0x40, 0x80 + cp % 0x40]
    else [0xF0 + cp / 0x4_0000, 0x80 + (cp / 0x1000) % 0x40, 0x80 + (cp / 0x40) % 0x40, 0x80 + cp % 0x40]
  }

  function HexDigit(n: int): (c: char)
    requires 0 <= n < 16
    ensures IsUpperHex(c)
  {
    if n < 10 then (48 + n) as char else (55 + n) as char
  }

  /** `%XY` for one octet. */
  function Escape(b: int): (r: string)
    requires IsByte(b)
    ensures |r| == 3 && r[0] == '%'
    ensures forall i :: 0 <= i < |r| ==> IsUriChar(r[i])
  {
    ['%', HexDigit(b / 16), HexDigit(b % 16)]
  }

  function EscapeAll(bs: seq<int>): (r: string)
    requires forall i :: 0 <= i < |bs| ==> IsByte(bs[i])
    ensures |r| == 3 * |bs|
    ensures forall i :: 0 <= i < |r| ==> IsUriChar(r[i])
    ensures forall j :: 0 <= j < |bs| ==> r[3 * j..3 * j + 3] == Escape(bs[j])
  {
    if bs == [] then [] else Escape(bs[0]) + EscapeAll(bs[1..])
  }

  function EncodeChar(c: char): (r: string)
    ensures 1 <= |r|
    ensures forall i :: 0 <= i < |r| ==> IsUriChar(r[i])
    ensures IsUnescaped(c) <==> r == [c]
    ensures !IsUnescaped(c) ==>
      (|r| == 3 * |Utf8(c)| && forall j :: 0 <= j < |Utf8(c)| ==> r[3 * j..3 * j + 3] == Escape(Utf8(c)[j]))
  {
    if IsUnescaped(c) then [c] else EscapeAll(Utf8(c))
  }

  /** `encodeURIComponent(s)` */
  function Encode(s: string): (r: string)
    ensures |s| <= |r|
    ensures forall i :: 0 <= i < |r| ==> IsUriChar(r[i])
    ensures (forall i :: 0 <= i < |s| ==> IsUnescaped(s[i])) ==> r == s
    ensures ' ' !in r
  {
    if s == [] then [] else EncodeChar(s[0]) + Encode(s[1..])
  }
}
