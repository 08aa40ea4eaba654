/** Hexadecimal, as encoding/hex writes and reads it. */
module Hex {
  import opened Bytes
  import opened Wrappers

  function HexDigit(d: nat): (c: char)
    requires d < 16
  {
    if d < 10 then '0' + d as char else 'a' + (d - 10) as char
  }

  predicate IsHex(c: char) {
    '0' <= c <= '9' || 'a' <= c <= 'f' || 'A' <= c <= 'F'
  }

  function HexValue(c: char): (d: nat)
    requires IsHex(c)
    ensures d < 16
  {
    if '0' <= c <= '9' then (c - '0') as nat
    else if 'a' <= c <= 'f' then (c - 'a') as nat + 10
    else (c - 'A') as nat + 10
  }

  const LOWER := "0123456789abcdef"
  const UPPER := "0123456789ABCDEF"

  /** A digit is read as its place among the digits of either case, and written in lower case. */
  lemma DigitsByPlace(d: nat)
    requires d < 16
    ensures IsHex(LOWER[d]) && HexValue(LOWER[d]) == d && IsHex(UPPER[d]) && HexValue(UPPER[d]) == d
    ensures HexDigit(d) == LOWER[d]
  {
  }

  /** There are no other digits. */
  lemma DigitsListed(c: char)
    ensures IsHex(c) <==> c in LOWER || c in UPPER
  {
    if IsHex(c) {
      DigitsByPlace(HexValue(c));
    }
    if i :| 0 <= i < |LOWER| && LOWER[i] == c {
      DigitsByPlace(i);
    }
    if i :| 0 <= i < |UPPER| && UPPER[i] == c {
      DigitsByPlace(i);
    }
  }

  lemma HexRoundTrip(d: nat)
    requires d < 16
    ensures IsHex(HexDigit(d)) && HexValue(HexDigit(d)) == d
  {
  }

  /** Two lower-case digits for each byte. */
  function EncodeHex(b: bytes): (s: string)
    ensures |s| == 2 * |b|
  {
    if b == [] then "" else [HexDigit(b[0] / 16), HexDigit(b[0] % 16)] + EncodeHex(b[1..])
  }

  /** Digits in pairs, of either case. */
  function DecodeHex(s: string): (r: Option<bytes>)
    ensures r.Some? ==> 2 * |r.value| == |s|
  {
    if s == "" then Some([])
    else if |s| < 2 || !IsHex(s[0]) || !IsHex(s[1]) then None
    else
      match DecodeHex(s[2..])
      case None => None
      case Some(tail) => Some([HexValue(s[0]) * 16 + HexValue(s[1])] + tail)
  }

  lemma OneByte(high: nat, low: nat, tail: string)
    requires high < 16 && low < 16 && DecodeHex(tail).Some?
    ensures DecodeHex([HexDigit(high), HexDigit(low)] + tail) == Some([high * 16 + low] + DecodeHex(tail).value)
  {
    HexRoundTrip(high);
    HexRoundTrip(low);
    var s := [HexDigit(high), HexDigit(low)] + tail;
    assert s[0] == HexDigit(high) && s[1] == HexDigit(low) && s[2..] == tail;
  }

  lemma TwoDigits(x: byte)
    ensures 0 <= x / 16 < 16 && 0 <= x % 16 < 16 && x / 16 * 16 + x % 16 == x
  {
  }

  lemma {:induction false} HexBytesRoundTrip(b: bytes)
    ensures DecodeHex(EncodeHex(b)) == Some(b)
  {
    if b != [] {
      HexBytesRoundTrip(b[1..]);
      TwoDigits(b[0]);
      OneByte(b[0] / 16, b[0] % 16, EncodeHex(b[1..]));
      assert b == [b[0]] + b[1..];
    }
  }

  /** Texts of an even number of hex characters are decoded, and no others. */
  lemma {:induction false} DecodesWhenHex(s: string)
    ensures DecodeHex(s).Some? <==> |s| % 2 == 0 && forall i :: 0 <= i < |s| ==> IsHex(s[i])
    decreases |s|
  {
    if |s| >= 2 {
      DecodesWhenHex(s[2..]);
      assert forall i :: 2 <= i < |s| ==> s[i] == s[2..][i - 2];
    }
  }

  /** Each pair of characters is one byte. */
  lemma {:induction false} DecodedByPairs(s: string)
    requires |s| % 2 == 0 && forall i :: 0 <= i < |s| ==> IsHex(s[i])
    ensures DecodeHex(s).Some?
    ensures forall k :: 0 <= k < |s| / 2 ==> DecodeHex(s).value[k] == HexValue(s[2 * k]) * 16 + HexValue(s[2 * k + 1])
    decreases |s|
  {
    if s != "" {
      DecodedByPairs(s[2..]);
      var b := DecodeHex(s).value;
      assert b == [HexValue(s[0]) * 16 + HexValue(s[1])] + DecodeHex(s[2..]).value;
      forall k | 0 <= k < |s| / 2
        ensures b[k] == HexValue(s[2 * k]) * 16 + HexValue(s[2 * k + 1])
      {
        if k > 0 {
          assert s[2 * k] == s[2..][2 * (k - 1)] && s[2 * k + 1] == s[2..][2 * (k - 1) + 1];
        }
      }
    }
  }

  lemma {:induction false} HexHasNo(b: bytes, c: char)
    requires !IsHex(c)
    ensures c !in EncodeHex(b)
  {
    if b != [] {
      HexRoundTrip(b[0] / 16);
      HexRoundTrip(b[0] % 16);
      HexHasNo(b[1..], c);
    }
  }
}
