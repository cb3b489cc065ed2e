/**
 * PHP's `urlencode`: the application/x-www-form-urlencoded encoding of
 * section 17.13.4.1 of HTML 4.01 as PHP writes it. ASCII letters, digits and
 * `-_.` are kept, a space becomes `+`, and every other byte becomes `%XX`
 * with upper-case hexadecimal digits. `UrlDecode` is PHP's `urldecode`, the
 * reader the encoding is made for.
 */
module UrlEncoding {
  import opened ByteStrings

  /** Bytes `urlencode` copies unchanged. */
  predicate Unreserved(c: Byte) {
    IsAlnum(c) || c == '-' || c == '_' || c == '.'
  }

  /** Bytes that can appear in the output of `urlencode`. */
  predicate Encoded(c: Byte) {
    Unreserved(c) || c == '+' || c == '%'
  }

  function HexDigit(d: nat): (c: Byte)
    requires d < 16
    ensures Unreserved(c)
  {
    if d < 10 then ('0' as int + d) as char else ('A' as int + d - 10) as char
  }

  predicate IsHex(c: Byte) {
    IsDigit(c) || 'A' <= c <= 'F' || 'a' <= c <= 'f'
  }

  function HexValue(c: Byte): (d: nat)
    requires IsHex(c)
    ensures d < 16
  {
    if IsDigit(c) then c as int - '0' as int
    else if 'A' <= c <= 'F' then c as int - 'A' as int + 10
    else c as int - 'a' as int + 10
  }

  function EncodeByte(c: Byte): (r: Bytes)
    ensures 1 <= |r| <= 3
    ensures forall i :: 0 <= i < |r| ==> Encoded(r[i])
  {
    if Unreserved(c) then [c]
    else if c == ' ' then ['+']
    else ['%', HexDigit(c as int / 16), HexDigit(c as int % 16)]
  }

  /** Each byte expands to one to three bytes, none of which is a query delimiter. */
  function UrlEncode(s: Bytes): (r: Bytes)
    ensures |s| <= |r| <= 3 * |s|
    ensures forall i :: 0 <= i < |r| ==> Encoded(r[i])
  {
    if |s| == 0 then []
    else
      var head := EncodeByte(s[0]);
      var tail := UrlEncode(s[1..]);
      assert forall i :: 0 <= i < |head + tail| ==> (head + tail)[i] == if i < |head| then head[i] else tail[i - |head|];
      head + tail
  }

  function UrlDecode(s: Bytes): Bytes
  {
    if |s| == 0 then []
    else if s[0] == '+' then [' '] + UrlDecode(s[1..])
    else if s[0] == '%' && |s| >= 3 && IsHex(s[1]) && IsHex(s[2]) then
      [(16 * HexValue(s[1]) + HexValue(s[2])) as char] + UrlDecode(s[3..])
    else [s[0]] + UrlDecode(s[1..])
  }

  lemma HexRoundTrip(d: nat)
    requires d < 16
    ensures IsHex(HexDigit(d)) && HexValue(HexDigit(d)) == d
  {
  }

  lemma DecodeEncodeByte(c: Byte, rest: Bytes)
    ensures UrlDecode(EncodeByte(c) + rest) == [c] + UrlDecode(rest)
  {
    var e := EncodeByte(c) + rest;
    if Unreserved(c) {
      assert e[1..] == rest;
    } else if c == ' ' {
      assert e[1..] == rest;
    } else {
      HexRoundTrip(c as int / 16);
      HexRoundTrip(c as int % 16);
      assert e[3..] == rest;
    }
  }

  /** `urldecode(urlencode(s)) == s` for every byte string. */
  lemma {:induction false} DecodeEncode(s: Bytes)
    ensures UrlDecode(UrlEncode(s)) == s
  {
    if |s| > 0 {
      DecodeEncode(s[1..]);
      DecodeEncodeByte(s[0], UrlEncode(s[1..]));
      assert [s[0]] + s[1..] == s;
    }
  }

  /** The encoding never produces the bytes that delimit a query string. */
  lemma EncodedHasNoDelimiters(s: Bytes)
    ensures '&' !in UrlEncode(s) && '=' !in UrlEncode(s) && '?' !in UrlEncode(s)
  {
    var r := UrlEncode(s);
    forall i | 0 <= i < |r| ensures r[i] != '&' && r[i] != '=' && r[i] != '?' {
      assert Encoded(r[i]);
    }
  }
}
