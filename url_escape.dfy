/**
 Go's url.QueryEscape: the string is taken as its UTF-8 bytes; the unreserved
 characters of section 2.3 of RFC 3986 are kept, a space byte becomes '+', and
 every other byte becomes '%' followed by two upper-case hexadecimal digits.
 */
module UrlEscape {
  import opened Wrappers

  type Byte = b: int | 0 <= b < 256

  /** The unreserved characters of section 2.3 of RFC 3986. */
  predicate IsUnreserved(c: char) {
    ('A' <= c <= 'Z') || ('a' <= c <= 'z') || ('0' <= c <= '9') || c == '-' || c == '_' || c == '.' || c == '~'
  }

  /** A character QueryEscape may emit. */
  predicate IsEscapedChar(c: char) {
    IsUnreserved(c) || c == '+' || c == '%'
  }

  /** The UTF-8 encoding of one scalar value. */
  function Utf8Char(c: char): (bs: seq<Byte>)
    ensures 1 <= |bs| <= 4
    ensures c as int < 0x80 ==> bs == [c as int]
    ensures c as int >= 0x80 ==> forall i :: 0 <= i < |bs| ==> bs[i] >= 0x80
  {
    var n := c as int;
    if n < 0x80 then [n]
    else if n < 0x800 then [0xC0 + n / 0x40, 0x80 + n % 0x40]
    else if n < 0x10000 then [0xE0 + n / 0x1000, 0x80 + (n / 0x40) % 0x40, 0x80 + n % 0x40]
    else [0xF0 + n / 0x40000, 0x80 + (n / 0x1000) % 0x40, 0x80 + (n / 0x40) % 0x40, 0x80 + n % 0x40]
  }

  /** The UTF-8 encoding of a string, the bytes a Go string holds. */
  function Utf8(s: string): seq<Byte>
  {
    if s == [] then [] else Utf8Char(s[0]) + Utf8(s[1..])
  }

  const HexDigits: string := "0123456789ABCDEF"

  /** The escape of one byte. */
  function EscapeByte(b: Byte): string
  {
    if b < 0x80 && IsUnreserved(b as char) then [b as char]
    else if b == 0x20 then "+"
    else ['%', HexDigits[b / 16], HexDigits[b % 16]]
  }

  /** The escape of a byte string, byte by byte. */
  function EscapeBytes(bs: seq<Byte>): string
  {
    if bs == [] then "" else EscapeByte(bs[0]) + EscapeBytes(bs[1..])
  }

  /** An escaped string holds only unreserved characters, '+' and '%'. */
  lemma {:induction false} EscapeBytesAlphabet(bs: seq<Byte>)
    ensures forall i :: 0 <= i < |EscapeBytes(bs)| ==> IsEscapedChar(EscapeBytes(bs)[i])
  {
    if bs != [] {
      EscapeBytesAlphabet(bs[1..]);
      var head := EscapeByte(bs[0]);
      assert forall i :: 0 <= i < |head| ==> IsEscapedChar(head[i]);
    }
  }

  /** url.QueryEscape. */
  function QueryEscape(s: string): string
  {
    EscapeBytes(Utf8(s))
  }

  predicate IsHex(c: char) {
    ('0' <= c <= '9') || ('A' <= c <= 'F') || ('a' <= c <= 'f')
  }

  function HexValue(c: char): (v: nat)
    requires IsHex(c)
    ensures v < 16
  {
    if '0' <= c <= '9' then c as int - '0' as int
    else if 'A' <= c <= 'F' then c as int - 'A' as int + 10
    else c as int - 'a' as int + 10
  }

  /**
   Decodes a query-escaped ASCII string back into its bytes ('+' is a space,
   "%XX" one byte); None for a '%' without two hexadecimal digits or a
   character outside ASCII.
   */
  function Unescape(e: string): Option<seq<Byte>>
  {
    if e == [] then Some([])
    else
      var first: Option<(Byte, nat)> :=
        if e[0] == '%' then
          if |e| >= 3 && IsHex(e[1]) && IsHex(e[2]) then Some((HexValue(e[1]) * 16 + HexValue(e[2]), 3)) else None
        else if e[0] == '+' then Some((0x20, 1))
        else if e[0] as int < 0x80 then Some((e[0] as int, 1))
        else None;
      match first
      case None => None
      case Some((b, n)) =>
        match Unescape(e[n..])
        case None => None
        case Some(rest) => Some([b] + rest)
  }

  lemma HexDigitValue(n: nat)
    requires n < 16
    ensures IsHex(HexDigits[n]) && HexValue(HexDigits[n]) == n
  {
  }

  /** Unescaping undoes escaping: QueryEscape loses nothing. */
  lemma {:induction false} UnescapeEscapeBytes(bs: seq<Byte>)
    ensures Unescape(EscapeBytes(bs)) == Some(bs)
  {
    if bs != [] {
      var b := bs[0];
      var e := EscapeBytes(bs);
      UnescapeEscapeBytes(bs[1..]);
      assert bs == [b] + bs[1..];
      if b < 0x80 && IsUnreserved(b as char) {
        assert e[0] == b as char && e[0] != '%' && e[0] != '+';
        assert e[0] as int == b;
        assert e[1..] == EscapeBytes(bs[1..]);
      } else if b == 0x20 {
        assert e[1..] == EscapeBytes(bs[1..]);
      } else {
        HexDigitValue(b / 16);
        HexDigitValue(b % 16);
        assert e[3..] == EscapeBytes(bs[1..]);
      }
    }
  }

  lemma QueryEscapeRoundTrip(s: string)
    ensures Unescape(QueryEscape(s)) == Some(Utf8(s))
  {
    UnescapeEscapeBytes(Utf8(s));
  }

  /** The string with every space turned into '+'. */
  function SpacesToPlus(s: string): string
  {
    if s == [] then "" else [if s[0] == ' ' then '+' else s[0]] + SpacesToPlus(s[1..])
  }

  /** A string of unreserved characters and spaces is escaped by turning each space into '+'. */
  lemma {:induction false} QueryEscapePlain(s: string)
    requires forall i :: 0 <= i < |s| ==> IsUnreserved(s[i]) || s[i] == ' '
    ensures QueryEscape(s) == SpacesToPlus(s)
  {
    if s != [] {
      QueryEscapePlain(s[1..]);
    }
  }
}
