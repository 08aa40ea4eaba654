/** The UTF-8 form of text, RFC 3629: what a CBOR text string carries. */
module Utf8 {
  import opened Bytes

  /** The one to four bytes of one character. */
  function EncodeChar(c: char): (b: bytes)
    ensures 1 <= |b| <= 4
  {
    var n := c as int;
    if n < 0x80 then [n]
    else if n < 0x800 then [0xC0 + n / 64, 0x80 + n % 64]
    else if n < 0x10000 then [0xE0 + n / 4096, 0x80 + n / 64 % 64, 0x80 + n % 64]
    else [0xF0 + n / 262144, 0x80 + n / 4096 % 64, 0x80 + n / 64 % 64, 0x80 + n % 64]
  }

  function Encode(s: string): (b: bytes) {
    if s == "" then [] else EncodeChar(s[0]) + Encode(s[1..])
  }

  /** The code point one character's bytes carry. */
  function CodePoint(b: bytes): int
    requires 1 <= |b| <= 4
  {
    var lead: int := b[0];
    var next: int := if |b| > 1 then b[1] as int - 0x80 else 0;
    if |b| == 1 then lead
    else if |b| == 2 then (lead - 0xC0) * 64 + next
    else
      var third: int := b[2] as int - 0x80;
      if |b| == 3 then (lead - 0xE0) * 4096 + next * 64 + third
      else (lead - 0xF0) * 262144 + next * 4096 + third * 64 + (b[3] as int - 0x80)
  }

  /** The number of bytes the first of them announces. */
  function Width(first: byte): (w: nat)
    ensures 1 <= w <= 4
  {
    if first < 0xC0 then 1 else if first < 0xE0 then 2 else if first < 0xF0 then 3 else 4
  }

  lemma CodePointRoundTrip(c: char)
    ensures CodePoint(EncodeChar(c)) == c as int
    ensures Width(EncodeChar(c)[0]) == |EncodeChar(c)|
  {
    var n := c as int;
    if n < 0x800 {
    } else if n < 0x10000 {
      assert n / 4096 == n / 64 / 64;
    } else {
      assert n / 4096 == n / 64 / 64;
      assert n / 262144 == n / 4096 / 64;
    }
  }

  /** A byte behind the first one. */
  predicate IsContinuation(x: int) {
    0x80 <= x < 0xC0
  }

  /** b is the shortest form of the code point n: one byte up to 0x7F, two up to 0x7FF, three up to
      0xFFFF, four beyond; a first byte that tells how many, six bits of n in each one behind it. */
  predicate IsShortest(b: seq<int>, n: nat) {
    if n < 0x80 then |b| == 1 && b[0] == n
    else if n < 0x800 then
      |b| == 2 && 0xC0 <= b[0] < 0xE0 && IsContinuation(b[1]) && n == (b[0] - 0xC0) * 64 + (b[1] - 0x80)
    else if n < 0x10000 then
      && |b| == 3 && 0xE0 <= b[0] < 0xF0 && IsContinuation(b[1]) && IsContinuation(b[2])
      && n == ((b[0] - 0xE0) * 64 + (b[1] - 0x80)) * 64 + (b[2] - 0x80)
    else
      && |b| == 4 && 0xF0 <= b[0] < 0xF8 && IsContinuation(b[1]) && IsContinuation(b[2]) && IsContinuation(b[3])
      && n == (((b[0] - 0xF0) * 64 + (b[1] - 0x80)) * 64 + (b[2] - 0x80)) * 64 + (b[3] - 0x80)
  }

  lemma SixBits(n: nat)
    ensures n == n / 64 * 64 + n % 64 && n / 4096 == n / 64 / 64 && n / 262144 == n / 64 / 64 / 64
    ensures n / 4096 % 64 == n / 64 / 64 % 64
  {
  }

  lemma EncodedIsShortest(c: char)
    ensures IsShortest(EncodeChar(c), c as int)
  {
    var n: nat := c as int;
    SixBits(n);
    SixBits(n / 64);
    SixBits(n / 64 / 64);
  }

  /** The bytes a text has. */
  function Size(s: string): (n: nat) {
    if s == "" then 0
    else
      var c: int := s[0] as int;
      (if c < 0x80 then 1 else if c < 0x800 then 2 else if c < 0x10000 then 3 else 4) + Size(s[1..])
  }

  lemma {:induction false} EncodedSize(s: string)
    ensures |Encode(s)| == Size(s)
  {
    if s != "" {
      EncodedIsShortest(s[0]);
      EncodedSize(s[1..]);
    }
  }

  /** s comes before t by code points: at the first that differs, or as its beginning. */
  predicate TextBefore(s: string, t: string) {
    t != "" && (s == "" || s[0] < t[0] || (s[0] == t[0] && TextBefore(s[1..], t[1..])))
  }

  lemma ShortestFirstByte(b: bytes, n: nat)
    requires IsShortest(b, n) && n < 0x110000
    ensures |b| >= 1
    ensures n < 0x80 ==> b[0] < 0x80
    ensures 0x80 <= n < 0x800 ==> 0xC0 <= b[0] < 0xE0
    ensures 0x800 <= n < 0x10000 ==> 0xE0 <= b[0] < 0xF0
    ensures 0x10000 <= n ==> 0xF0 <= b[0]
  {
  }

  /** The lower of two code points has the lower bytes. */
  lemma LowerIsLess(c: char, d: char, r: bytes, t: bytes)
    requires c < d
    ensures Less(EncodeChar(c) + r, EncodeChar(d) + t)
  {
    EncodedIsShortest(c);
    EncodedIsShortest(d);
    var x, y := EncodeChar(c), EncodeChar(d);
    ShortestFirstByte(x, c as int);
    ShortestFirstByte(y, d as int);
    if |x| != |y| {
      assert (x + r)[0] == x[0] && (y + t)[0] == y[0];
    } else {
      SameLengthLess(x, y, c as int, d as int, r, t);
    }
  }

  lemma SameLengthLess(x: bytes, y: bytes, m: nat, n: nat, r: bytes, t: bytes)
    requires IsShortest(x, m) && IsShortest(y, n) && m < n < 0x110000 && |x| == |y|
    ensures Less(x + r, y + t)
  {
    var k := FirstDifference(x, y, m, n);
    LessFrom(x, y, k, r, t);
  }

  lemma FirstDifference(x: bytes, y: bytes, m: nat, n: nat) returns (k: nat)
    requires IsShortest(x, m) && IsShortest(y, n) && m < n < 0x110000 && |x| == |y|
    ensures k < |x| && x[..k] == y[..k] && x[k] < y[k]
  {
    k := if x[0] != y[0] then 0 else if x[1] != y[1] then 1 else if x[2] != y[2] then 2 else 3;
  }

  lemma LessFrom(x: bytes, y: bytes, k: nat, r: bytes, t: bytes)
    requires k < |x| == |y| && x[..k] == y[..k] && x[k] < y[k]
    ensures Less(x + r, y + t)
  {
    var p, a, b := x[..k], x[k..] + r, y[k..] + t;
    assert x + r == p + a && y + t == p + b;
    assert a[0] == x[k] && b[0] == y[k];
    LessAtDifference(p, a, b);
  }

  /** The bytewise order of UTF-8 is the order of code points. */
  lemma {:induction false} OrderIsCodePointOrder(s: string, t: string)
    ensures Less(Encode(s), Encode(t)) <==> TextBefore(s, t)
  {
    if s != "" && t != "" {
      var x, y := Encode(s[1..]), Encode(t[1..]);
      if s[0] < t[0] {
        LowerIsLess(s[0], t[0], x, y);
      } else if t[0] < s[0] {
        LowerIsLess(t[0], s[0], y, x);
        LessAsymmetric(Encode(t), Encode(s));
      } else {
        OrderIsCodePointOrder(s[1..], t[1..]);
        LessAtDifference(EncodeChar(s[0]), x, y);
      }
    }
  }

  /** No character's bytes begin another's. */
  lemma EncodeCharPrefixFree(c: char, d: char, r: bytes, t: bytes)
    requires EncodeChar(c) + r == EncodeChar(d) + t
    ensures c == d && r == t
  {
    CodePointRoundTrip(c);
    CodePointRoundTrip(d);
    SplitSame(EncodeChar(c), EncodeChar(d), r, t);
  }

  lemma SplitSame(x: bytes, y: bytes, r: bytes, t: bytes)
    requires 1 <= |x| == Width(x[0]) && 1 <= |y| == Width(y[0])
    requires x + r == y + t
    ensures x == y && r == t
  {
    assert x[0] == (x + r)[0] == y[0];
    assert x == (x + r)[..|x|] == y;
    assert r == (x + r)[|x|..] == t;
  }

  /** Different texts have different UTF-8. */
  lemma {:induction false} EncodeInjective(s: string, t: string)
    requires Encode(s) == Encode(t)
    ensures s == t
  {
    if s != "" && t != "" {
      EncodeCharPrefixFree(s[0], t[0], Encode(s[1..]), Encode(t[1..]));
      EncodeInjective(s[1..], t[1..]);
      assert s == [s[0]] + s[1..] && t == [t[0]] + t[1..];
    }
  }
}
