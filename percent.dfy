/** `decode_url`: `urllib.parse.unquote` at byte level, as percent-encoding
    is defined in section 2.1 of RFC 3986. A `%` followed by two hex digits
    (either case) becomes the byte they spell; every other byte, `+` and a
    stray `%` included, is copied unchanged. */
module Percent {
  import opened Text

  const PercentSign: byte := 37

  predicate IsHexDigit(b: byte) {
    (48 <= b <= 57) || (65 <= b <= 70) || (97 <= b <= 102)
  }

  function HexValue(b: byte): (v: nat)
    requires IsHexDigit(b)
    ensures v < 16
  {
    if b <= 57 then (b - 48) as nat
    else if b <= 70 then (b - 55) as nat
    else (b - 87) as nat
  }

  /** The upper-case hex digit for `n`, which section 2.1 of RFC 3986 asks encoders to produce. */
  function HexDigit(n: nat): (d: byte)
    requires n < 16
    ensures IsHexDigit(d) && HexValue(d) == n
  {
    if n < 10 then (48 + n) as byte else (55 + n) as byte
  }

  /** A complete escape `%XX` starts at index `i`. */
  predicate EscapeAt(s: seq<byte>, i: nat) {
    i + 2 < |s| && s[i] == PercentSign && IsHexDigit(s[i + 1]) && IsHexDigit(s[i + 2])
  }

  /** `unquote`, one byte or one escape at a time from the front. */
  function Decode(s: seq<byte>): (r: seq<byte>)
    ensures |r| <= |s|
    decreases |s|
  {
    if |s| == 0 then []
    else if EscapeAt(s, 0) then [(HexValue(s[1]) * 16 + HexValue(s[2])) as byte] + Decode(s[3..])
    else [s[0]] + Decode(s[1..])
  }

  /** A string without `%` is returned unchanged (`+` is not turned into a space). */
  lemma {:induction false} DecodeWithoutPercent(s: seq<byte>)
    requires PercentSign !in s
    ensures Decode(s) == s
    decreases |s|
  {
    if |s| > 0 {
      DecodeWithoutPercent(s[1..]);
      assert s == [s[0]] + s[1..];
    }
  }

  /** A byte that does not start an escape is copied and decoding goes on after it:
      this is how a stray `%` passes through. */
  lemma DecodeCopies(b: byte, rest: seq<byte>)
    requires !EscapeAt([b] + rest, 0)
    ensures Decode([b] + rest) == [b] + Decode(rest)
  {
    assert ([b] + rest)[1..] == rest;
  }

  /** An escape is replaced by the byte its two hex digits encode. */
  lemma DecodeEscape(hi: byte, lo: byte, rest: seq<byte>)
    requires IsHexDigit(hi) && IsHexDigit(lo)
    ensures Decode([PercentSign, hi, lo] + rest) == [(HexValue(hi) * 16 + HexValue(lo)) as byte] + Decode(rest)
  {
    assert ([PercentSign, hi, lo] + rest)[3..] == rest;
  }

  /** The escape of one byte. */
  function EscapeByte(b: byte): (e: seq<byte>)
    ensures |e| == 3 && EscapeAt(e, 0)
  {
    [PercentSign, HexDigit(b as nat / 16), HexDigit(b as nat % 16)]
  }

  /** Percent-encoding: every byte outside `keep` becomes its escape. */
  function Encode(s: seq<byte>, keep: set<byte>): (r: seq<byte>)
    decreases |s|
  {
    if |s| == 0 then []
    else (if s[0] in keep then [s[0]] else EscapeByte(s[0])) + Encode(s[1..], keep)
  }

  /** The decoder undoes the encoder for any set of kept bytes that does not
      contain `%` (for instance the unreserved characters of section 2.3 of RFC 3986). */
  lemma {:induction false} DecodeEncode(s: seq<byte>, keep: set<byte>)
    requires PercentSign !in keep
    ensures Decode(Encode(s, keep)) == s
    decreases |s|
  {
    if |s| > 0 {
      var rest := Encode(s[1..], keep);
      DecodeEncode(s[1..], keep);
      if s[0] in keep {
        DecodeCopies(s[0], rest);
      } else {
        var b := s[0] as nat;
        DecodeEscape(HexDigit(b / 16), HexDigit(b % 16), rest);
      }
      assert s == [s[0]] + s[1..];
    }
  }

  /** Escapes whose digits have the same values decode alike, so `%2f` and
      `%2F` are the same byte. */
  lemma DecodeHexCase(hi: byte, lo: byte, hi2: byte, lo2: byte, rest: seq<byte>)
    requires IsHexDigit(hi) && IsHexDigit(lo) && IsHexDigit(hi2) && IsHexDigit(lo2)
    requires HexValue(hi) == HexValue(hi2) && HexValue(lo) == HexValue(lo2)
    ensures Decode([PercentSign, hi, lo] + rest) == Decode([PercentSign, hi2, lo2] + rest)
  {
    DecodeEscape(hi, lo, rest);
    DecodeEscape(hi2, lo2, rest);
  }

  /** A lower-case hex letter has the value of its upper-case form. */
  lemma LetterCase(d: byte)
    requires 97 <= d <= 102
    ensures IsHexDigit(d - 32) && HexValue(d) == HexValue(d - 32)
  {
  }
}
