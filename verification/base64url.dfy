/**
 * Base64 (section 4 of RFC 4648) and its URL-safe, unpadded form (section 5 of RFC 4648)
 * as the session token derives it: standard base64 with `+` -> `-`, `/` -> `_` and the
 * trailing `=` run removed.
 */
module Base64Url {
  import opened Wrappers
  import opened Strings

  newtype byte = x: int | 0 <= x < 256

  /** A digit of the standard alphabet `A-Z a-z 0-9 + /`. */
  predicate IsStdChar(c: char) {
    ('A' <= c <= 'Z') || ('a' <= c <= 'z') || ('0' <= c <= '9') || c == '+' || c == '/'
  }

  /** A digit of the URL-safe alphabet `A-Z a-z 0-9 - _`. */
  predicate IsUrlChar(c: char) {
    ('A' <= c <= 'Z') || ('a' <= c <= 'z') || ('0' <= c <= '9') || c == '-' || c == '_'
  }

  /** The 6-bit value of a standard digit. */
  function DigitValue(c: char): (v: int)
    requires IsStdChar(c)
    ensures 0 <= v < 64
  {
    if 'A' <= c <= 'Z' then c as int - 65
    else if 'a' <= c <= 'z' then c as int - 97 + 26
    else if '0' <= c <= '9' then c as int - 48 + 52
    else if c == '+' then 62
    else 63
  }

  /** The standard digit of a 6-bit value. */
  function Digit(v: int): (c: char)
    requires 0 <= v < 64
    ensures IsStdChar(c) && DigitValue(c) == v
  {
    if v < 26 then (65 + v) as char
    else if v < 52 then (97 + v - 26) as char
    else if v < 62 then (48 + v - 52) as char
    else if v == 62 then '+'
    else '/'
  }

  /** Base64 digits of `b` without padding: four digits per three bytes, then 2 or 3 for a tail. */
  function EncodeGroups(b: seq<byte>): (r: string)
    ensures |r| == (4 * |b| + 2) / 3
    ensures forall i :: 0 <= i < |r| ==> IsStdChar(r[i])
    decreases |b|
  {
    if |b| == 0 then ""
    else
      var b0 := b[0] as int;
      if |b| == 1 then [Digit(b0 / 4), Digit((b0 % 4) * 16)]
      else
        var b1 := b[1] as int;
        if |b| == 2 then [Digit(b0 / 4), Digit((b0 % 4) * 16 + b1 / 16), Digit((b1 % 16) * 4)]
        else
          Quad(b0, b1, b[2] as int) + EncodeGroups(b[3..])
  }

  /** The four digits of one full group of three bytes. */
  function Quad(b0: int, b1: int, b2: int): (r: string)
    requires 0 <= b0 < 256 && 0 <= b1 < 256 && 0 <= b2 < 256
    ensures |r| == 4
  {
    [Digit(b0 / 4), Digit((b0 % 4) * 16 + b1 / 16), Digit((b1 % 16) * 4 + b2 / 64), Digit(b2 % 64)]
  }

  /** Decodes unpadded base64 digits; a lone final digit or a non-digit makes it fail. */
  function DecodeGroups(s: string): (r: Option<seq<byte>>)
    decreases |s|
  {
    if |s| == 0 then Some([])
    else if |s| == 1 || !IsStdChar(s[0]) || !IsStdChar(s[1]) then None
    else
      var v0 := DigitValue(s[0]);
      var v1 := DigitValue(s[1]);
      var x0 := (v0 * 4 + v1 / 16) as byte;
      if |s| == 2 then Some([x0])
      else if !IsStdChar(s[2]) then None
      else
        var v2 := DigitValue(s[2]);
        var x1 := ((v1 % 16) * 16 + v2 / 4) as byte;
        if |s| == 3 then Some([x0, x1])
        else if !IsStdChar(s[3]) then None
        else
          var v3 := DigitValue(s[3]);
          var x2 := ((v2 % 4) * 64 + v3) as byte;
          match DecodeGroups(s[4..])
          case None => None
          case Some(rest) => Some([x0, x1, x2] + rest)
  }

  /** The `=` padding that completes the last group of `n` bytes. */
  function Padding(n: nat): string {
    if n % 3 == 1 then "==" else if n % 3 == 2 then "=" else ""
  }

  /** `Buffer.from(b).toString('base64')`. */
  function StdEncode(b: seq<byte>): string {
    EncodeGroups(b) + Padding(|b|)
  }

  /** `Buffer.from(s, 'base64')` on well-formed input: padding is optional. */
  function StdDecode(s: string): Option<seq<byte>> {
    DecodeGroups(StripTrailing(s, '='))
  }

  /** `.replace(/\+/g, '-').replace(/\//g, '_')`. */
  function ToUrlAlphabet(s: string): string {
    ReplaceChar(ReplaceChar(s, '+', '-'), '/', '_')
  }

  /** `.replace(/-/g, '+').replace(/_/g, '/')`. */
  function FromUrlAlphabet(s: string): string {
    ReplaceChar(ReplaceChar(s, '-', '+'), '_', '/')
  }

  lemma StripPadding(u: string, pad: string)
    requires |u| == 0 || u[|u| - 1] != '='
    requires forall i :: 0 <= i < |pad| ==> pad[i] == '='
    ensures StripTrailing(u + pad, '=') == u
    decreases |pad|
  {
    if |pad| > 0 {
      assert (u + pad)[..|u + pad| - 1] == u + pad[..|pad| - 1];
      StripPadding(u, pad[..|pad| - 1]);
    }
  }

  /** `b64url(buf)`: base64 in the URL-safe alphabet with the padding removed. */
  function B64Url(b: seq<byte>): (r: string)
    ensures |r| == (4 * |b| + 2) / 3
    ensures forall i :: 0 <= i < |r| ==> IsUrlChar(r[i])
    ensures r == ToUrlAlphabet(EncodeGroups(b))
  {
    var u := ToUrlAlphabet(EncodeGroups(b));
    var s := ToUrlAlphabet(StdEncode(b));
    assert s == u + Padding(|b|);
    StripPadding(u, Padding(|b|));
    StripTrailing(s, '=')
  }

  /** The digit arithmetic of one group inverts: each byte is rebuilt from the digits that carry it. */
  lemma GroupArithmetic(b0: int, b1: int, b2: int)
    requires 0 <= b0 < 256 && 0 <= b1 < 256 && 0 <= b2 < 256
    ensures var v1 := (b0 % 4) * 16 + b1 / 16; (b0 / 4) * 4 + v1 / 16 == b0 && v1 % 16 == b1 / 16
    ensures var v2 := (b1 % 16) * 4 + b2 / 64; (b1 / 16) * 16 + v2 / 4 == b1 && v2 % 4 == b2 / 64
    ensures (b2 / 64) * 64 + b2 % 64 == b2
  {
  }

  lemma DecodeOneByte(b0: int)
    requires 0 <= b0 < 256
    ensures DecodeGroups([Digit(b0 / 4), Digit((b0 % 4) * 16)]) == Some([b0 as byte])
  {
    GroupArithmetic(b0, 0, 0);
  }

  lemma DecodeTwoBytes(b0: int, b1: int)
    requires 0 <= b0 < 256 && 0 <= b1 < 256
    ensures DecodeGroups([Digit(b0 / 4), Digit((b0 % 4) * 16 + b1 / 16), Digit((b1 % 16) * 4)])
         == Some([b0 as byte, b1 as byte])
  {
    GroupArithmetic(b0, b1, 0);
  }

  lemma DecodeGroupPrefix(b0: int, b1: int, b2: int, rest: string, tail: seq<byte>)
    requires 0 <= b0 < 256 && 0 <= b1 < 256 && 0 <= b2 < 256
    requires DecodeGroups(rest) == Some(tail)
    ensures DecodeGroups(Quad(b0, b1, b2) + rest)
         == Some([b0 as byte, b1 as byte, b2 as byte] + tail)
  {
    GroupArithmetic(b0, b1, b2);
    var s := Quad(b0, b1, b2) + rest;
    assert s[4..] == rest;
  }

  /** Decoding the digits of a byte string gives the bytes back. */
  lemma {:induction false} DecodeEncodeGroups(b: seq<byte>)
    ensures DecodeGroups(EncodeGroups(b)) == Some(b)
    decreases |b|
  {
    if |b| == 0 {
    } else if |b| == 1 {
      var b0 := b[0] as int;
      assert EncodeGroups(b) == [Digit(b0 / 4), Digit((b0 % 4) * 16)];
      DecodeOneByte(b0);
      assert b == [b0 as byte];
    } else if |b| == 2 {
      var b0, b1 := b[0] as int, b[1] as int;
      assert EncodeGroups(b) == [Digit(b0 / 4), Digit((b0 % 4) * 16 + b1 / 16), Digit((b1 % 16) * 4)];
      DecodeTwoBytes(b0, b1);
      assert b == [b0 as byte, b1 as byte];
    } else {
      var b0, b1, b2 := b[0] as int, b[1] as int, b[2] as int;
      EncodeGroupsHead(b);
      DecodeEncodeGroups(b[3..]);
      DecodeGroupPrefix(b0, b1, b2, EncodeGroups(b[3..]), b[3..]);
      ThreeAndRest(b);
    }
  }

  /** The first group of three bytes becomes the first four digits. */
  lemma EncodeGroupsHead(b: seq<byte>)
    requires |b| >= 3
    ensures EncodeGroups(b) == Quad(b[0] as int, b[1] as int, b[2] as int) + EncodeGroups(b[3..])
  {
  }

  lemma ThreeAndRest(b: seq<byte>)
    requires |b| >= 3
    ensures b == [(b[0] as int) as byte, (b[1] as int) as byte, (b[2] as int) as byte] + b[3..]
  {
    assert b == [b[0], b[1], b[2]] + b[3..];
  }

  /**
   * The URL-safe form decodes back to the original bytes after the reverse substitution,
   * as the token verifier decodes a payload segment.
   */
  lemma B64UrlRoundTrip(b: seq<byte>)
    ensures StdDecode(FromUrlAlphabet(B64Url(b))) == Some(b)
  {
    var u := EncodeGroups(b);
    assert FromUrlAlphabet(B64Url(b)) == u;
    StripPadding(u, "");
    assert u + "" == u;
    DecodeEncodeGroups(b);
  }

  /** Distinct byte strings have distinct URL-safe encodings. */
  lemma B64UrlInjective(a: seq<byte>, b: seq<byte>)
    requires B64Url(a) == B64Url(b)
    ensures a == b
  {
    B64UrlRoundTrip(a);
    B64UrlRoundTrip(b);
  }
}
