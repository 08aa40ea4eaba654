/** Standard padded base64, section 4 of RFC 4648, read the way Go's StdEncoding reads it: bytes are
    regrouped as six-bit numbers, and those are spelled in the alphabet with '=' as padding. */
module Base64 {
  import opened Wrappers
  import opened Bytes

  type sextet = x: int | 0 <= x < 64

  // ---------------------------------------------------------------- bits

  function ToSextets(b: bytes): (xs: seq<sextet>)
  {
    if b == [] then []
    else if |b| == 1 then [b[0] / 4, b[0] % 4 * 16]
    else if |b| == 2 then [b[0] / 4, b[0] % 4 * 16 + b[1] / 16, b[1] % 16 * 4]
    else [b[0] / 4, b[0] % 4 * 16 + b[1] / 16, b[1] % 16 * 4 + b[2] / 64, b[2] % 64] + ToSextets(b[3..])
  }

  /** How many sextets n bytes make: 8 * n / 6, rounded up. */
  function Count(n: nat): (k: nat)
    ensures k % 4 != 1 && (k + 3) / 4 == (n + 2) / 3
  {
    if n < 3 then (if n == 0 then 0 else n + 1) else Count(n - 3) + 4
  }

  lemma {:induction false} SextetsCount(b: bytes)
    ensures |ToSextets(b)| == Count(|b|)
  {
    if |b| > 2 {
      SextetsCount(b[3..]);
    }
  }

  /** Eight bits out of neighbouring sextets, from the first, second and third bit pair on. */
  function First(x: int, y: int): int { x * 4 + y / 16 }
  function Second(x: int, y: int): int { x % 16 * 16 + y / 4 }
  function Third(x: int, y: int): int { x % 4 * 64 + y }

  /** Bits left over in the last sextet are not looked at. */
  function FromSextets(xs: seq<sextet>): (b: bytes) {
    if |xs| < 2 then []
    else if |xs| == 2 then [First(xs[0], xs[1])]
    else if |xs| == 3 then [First(xs[0], xs[1]), Second(xs[1], xs[2])]
    else [First(xs[0], xs[1]), Second(xs[1], xs[2]), Third(xs[2], xs[3])] + FromSextets(xs[4..])
  }

  /** The bits three bytes spread over four sextets are all there. */
  lemma BitsKept(x: byte, y: byte, z: byte)
    ensures First(x / 4, x % 4 * 16 + y / 16) == x
    ensures Second(x % 4 * 16 + y / 16, y % 16 * 4 + z / 64) == y
    ensures Third(y % 16 * 4 + z / 64, z % 64) == z
    ensures First(x / 4, x % 4 * 16) == x
    ensures Second(x % 4 * 16 + y / 16, y % 16 * 4) == y
  {
  }

  lemma ThreeBytesIn(x: byte, y: byte, z: byte, tail: bytes)
    ensures ToSextets([x, y, z] + tail) == [x / 4, x % 4 * 16 + y / 16, y % 16 * 4 + z / 64, z % 64] + ToSextets(tail)
  {
    var b := [x, y, z] + tail;
    assert b[0] == x && b[1] == y && b[2] == z && b[3..] == tail;
  }

  lemma FourSextetsOut(p: sextet, q: sextet, r: sextet, t: sextet, tail: seq<sextet>)
    ensures FromSextets([p, q, r, t] + tail) == [First(p, q), Second(q, r), Third(r, t)] + FromSextets(tail)
  {
    var xs := [p, q, r, t] + tail;
    assert xs[0] == p && xs[1] == q && xs[2] == r && xs[3] == t && xs[4..] == tail;
  }

  lemma ThreeBytesRoundTrip(x: byte, y: byte, z: byte, tail: bytes, xs: seq<sextet>)
    requires xs == ToSextets(tail) && FromSextets(xs) == tail
    ensures FromSextets(ToSextets([x, y, z] + tail)) == [x, y, z] + tail
  {
    ThreeBytesIn(x, y, z, tail);
    FourSextetsOut(x / 4, x % 4 * 16 + y / 16, y % 16 * 4 + z / 64, z % 64, xs);
    BitsKept(x, y, z);
  }

  lemma LastSextetsOut(p: sextet, q: sextet, r: sextet)
    ensures FromSextets([p, q]) == [First(p, q)]
    ensures FromSextets([p, q, r]) == [First(p, q), Second(q, r)]
  {
  }

  lemma OneByteRoundTrip(x: byte)
    ensures FromSextets(ToSextets([x])) == [x]
  {
    assert ToSextets([x]) == [x / 4, x % 4 * 16];
    LastSextetsOut(x / 4, x % 4 * 16, 0);
    BitsKept(x, 0, 0);
  }

  lemma TwoBytesRoundTrip(x: byte, y: byte)
    ensures FromSextets(ToSextets([x, y])) == [x, y]
  {
    assert ToSextets([x, y]) == [x / 4, x % 4 * 16 + y / 16, y % 16 * 4];
    LastSextetsOut(x / 4, x % 4 * 16 + y / 16, y % 16 * 4);
    BitsKept(x, y, 0);
  }

  lemma {:induction false} SextetsRoundTrip(b: bytes)
    ensures FromSextets(ToSextets(b)) == b
  {
    if |b| == 1 {
      OneByteRoundTrip(b[0]);
      assert b == [b[0]];
    } else if |b| == 2 {
      TwoBytesRoundTrip(b[0], b[1]);
      assert b == [b[0], b[1]];
    } else if |b| > 2 {
      SextetsRoundTrip(b[3..]);
      ThreeBytesRoundTrip(b[0], b[1], b[2], b[3..], ToSextets(b[3..]));
      assert b == [b[0], b[1], b[2]] + b[3..];
    }
  }

  // ---------------------------------------------------------------- text

  predicate IsSymbol(c: char) {
    'A' <= c <= 'Z' || 'a' <= c <= 'z' || '0' <= c <= '9' || c == '+' || c == '/'
  }

  function Symbol(x: sextet): (c: char)
    ensures IsSymbol(c)
    ensures Sextet(c) == x
  {
    if x < 26 then 'A' + x as char
    else if x < 52 then 'a' + (x - 26) as char
    else if x < 62 then '0' + (x - 52) as char
    else if x == 62 then '+' else '/'
  }

  function Sextet(c: char): (x: sextet)
    requires IsSymbol(c)
  {
    if 'A' <= c <= 'Z' then (c - 'A') as int
    else if 'a' <= c <= 'z' then (c - 'a') as int + 26
    else if '0' <= c <= '9' then (c - '0') as int + 52
    else if c == '+' then 62 else 63
  }

  /** Quanta of four characters, the last padded when sextets are missing. */
  function Spell(xs: seq<sextet>): (s: string) {
    if |xs| < 2 then ""
    else if |xs| == 2 then [Symbol(xs[0]), Symbol(xs[1]), '=', '=']
    else if |xs| == 3 then [Symbol(xs[0]), Symbol(xs[1]), Symbol(xs[2]), '=']
    else [Symbol(xs[0]), Symbol(xs[1]), Symbol(xs[2]), Symbol(xs[3])] + Spell(xs[4..])
  }

  /** One quantum after another; only the last may be padded. */
  function Unspell(s: string): (r: Option<seq<sextet>>) {
    if s == "" then Some([])
    else if |s| < 4 || !IsSymbol(s[0]) || !IsSymbol(s[1]) then None
    else if s[2] == '=' then
      if |s| == 4 && s[3] == '=' then Some([Sextet(s[0]), Sextet(s[1])]) else None
    else if !IsSymbol(s[2]) then None
    else if s[3] == '=' then
      if |s| == 4 then Some([Sextet(s[0]), Sextet(s[1]), Sextet(s[2])]) else None
    else if !IsSymbol(s[3]) then None
    else
      match Unspell(s[4..])
      case None => None
      case Some(tail) => Some([Sextet(s[0]), Sextet(s[1]), Sextet(s[2]), Sextet(s[3])] + tail)
  }

  lemma {:induction false} SpellRoundTrip(xs: seq<sextet>)
    requires |xs| % 4 != 1
    ensures Unspell(Spell(xs)) == Some(xs)
  {
    if |xs| > 3 {
      SpellRoundTrip(xs[4..]);
      assert Spell(xs)[4..] == Spell(xs[4..]);
      assert xs == [xs[0], xs[1], xs[2], xs[3]] + xs[4..];
    } else {
      assert xs == if |xs| == 0 then [] else if |xs| == 2 then [xs[0], xs[1]] else [xs[0], xs[1], xs[2]];
    }
  }

  predicate IsNewline(c: char) {
    c == '\n' || c == '\r'
  }

  /** The decoder passes over line ends wherever they stand. */
  function WithoutNewlines(s: string): (r: string)
    ensures forall i :: 0 <= i < |r| ==> !IsNewline(r[i])
  {
    if s == "" then "" else (if IsNewline(s[0]) then "" else [s[0]]) + WithoutNewlines(s[1..])
  }

  lemma {:induction false} NothingToSkip(s: string)
    requires forall i :: 0 <= i < |s| ==> !IsNewline(s[i])
    ensures WithoutNewlines(s) == s
  {
    if s != "" {
      NothingToSkip(s[1..]);
    }
  }

  // ---------------------------------------------------------------- the two together

  /** `EncodeToString`. */
  function Encode(b: bytes): (s: string) {
    Spell(ToSextets(b))
  }

  /** `DecodeString`. */
  function Decode(s: string): (r: Option<bytes>) {
    match Unspell(WithoutNewlines(s))
    case None => None
    case Some(xs) => Some(FromSextets(xs))
  }

  function Quanta(n: nat): (k: nat)
    ensures k == (n + 3) / 4
  {
    if n == 0 then 0 else if n < 4 then 1 else Quanta(n - 4) + 1
  }

  lemma {:induction false} SpellLength(xs: seq<sextet>)
    requires |xs| % 4 != 1
    ensures |Spell(xs)| == 4 * Quanta(|xs|)
  {
    if |xs| > 3 {
      SpellLength(xs[4..]);
    }
  }

  predicate IsPlain(c: char) {
    IsSymbol(c) || c == '='
  }

  lemma {:induction false} SpellIsPlain(xs: seq<sextet>)
    ensures forall c :: c in Spell(xs) ==> IsPlain(c)
  {
    if |xs| > 3 {
      SpellIsPlain(xs[4..]);
    }
  }

  /** The encoding is 4 * ceil(n / 3) characters, none of which JSON escapes or the decoder skips. */
  lemma EncodeShape(b: bytes)
    ensures |Encode(b)| == 4 * ((|b| + 2) / 3)
    ensures forall i :: 0 <= i < |Encode(b)| ==> IsPlain(Encode(b)[i])
  {
    SextetsCount(b);
    SpellLength(ToSextets(b));
    SpellIsPlain(ToSextets(b));
  }

  /** Any bytes come back, whatever their number is modulo three. */
  lemma RoundTrip(b: bytes)
    ensures Decode(Encode(b)) == Some(b)
  {
    EncodeShape(b);
    NothingToSkip(Encode(b));
    SextetsCount(b);
    SpellRoundTrip(ToSextets(b));
    SextetsRoundTrip(b);
  }

  // ---------------------------------------------------------------- what is decoded

  const CAPITALS := "ABCDEFGHIJKLMNOPQRSTUVWXYZ"
  const SMALL := "abcdefghijklmnopqrstuvwxyz"
  const DIGITS := "0123456789"

  lemma CapitalByPlace(x: sextet)
    requires x < 26
    ensures Symbol(x) == CAPITALS[x]
  {
  }

  lemma SmallByPlace(x: sextet)
    requires 26 <= x < 52
    ensures Symbol(x) == SMALL[x - 26]
  {
  }

  /** A symbol stands for its place in the alphabet: capitals, small letters, digits, "+" and "/". */
  lemma SymbolsByPlace(x: sextet)
    ensures Symbol(x) == if x < 26 then CAPITALS[x] else if x < 52 then SMALL[x - 26] else if x < 62 then DIGITS[x - 52]
                         else if x == 62 then '+' else '/'
  {
    if x < 26 {
      CapitalByPlace(x);
    } else if x < 52 {
      SmallByPlace(x);
    }
  }

  /** Only those are symbols. */
  lemma SymbolsListed(c: char)
    ensures IsSymbol(c) <==> exists x: sextet :: Symbol(x) == c
  {
    if IsSymbol(c) {
      assert Symbol(Sextet(c)) == c;
    }
  }

  /** How many "=" a text ends in, two at most. */
  function Pads(t: string): (n: nat)
    ensures n <= 2 && n <= |t|
  {
    if t == "" || t[|t| - 1] != '=' then 0 else if |t| < 2 || t[|t| - 2] != '=' then 1 else 2
  }

  /** Whole quanta of symbols, the last one padded or not. */
  predicate IsPadded(t: string) {
    |t| % 4 == 0 && forall i :: 0 <= i < |t| - Pads(t) ==> IsSymbol(t[i])
  }

  lemma PadsBehind(t: string)
    requires |t| >= 8
    ensures Pads(t) == Pads(t[4..])
  {
  }

  lemma OneQuantum(t: string)
    requires |t| == 4
    ensures Unspell(t).Some? <==> IsPadded(t)
    ensures IsPadded(t) ==> |Unspell(t).value| == 4 - Pads(t)
                            && forall i :: 0 <= i < 4 - Pads(t) ==> Unspell(t).value[i] == Sextet(t[i])
  {
    assert t[4..] == "";
  }

  lemma PaddedBehind(t: string)
    requires |t| >= 8
    ensures IsPadded(t) <==> IsPadded(t[4..]) && FourSymbols(t)
  {
    PadsBehind(t);
    assert forall i :: 4 <= i < |t| ==> t[i] == t[4..][i - 4];
  }

  predicate FourSymbols(t: string) {
    |t| >= 4 && IsSymbol(t[0]) && IsSymbol(t[1]) && IsSymbol(t[2]) && IsSymbol(t[3])
  }

  lemma UnspellFour(t: string)
    requires |t| > 4
    ensures Unspell(t) ==
            if FourSymbols(t) && Unspell(t[4..]).Some? then
              Some([Sextet(t[0]), Sextet(t[1]), Sextet(t[2]), Sextet(t[3])] + Unspell(t[4..]).value)
            else None
  {
  }

  lemma TooShort(t: string)
    requires 0 < |t| < 4
    ensures Unspell(t).None?
  {
  }

  lemma PlacesBehind(t: string, tail: seq<sextet>)
    requires |t| >= 8 && IsPadded(t) && IsPadded(t[4..]) && Pads(t) == Pads(t[4..]) && |tail| == |t| - 4 - Pads(t)
    requires FourSymbols(t)
    requires forall i :: 0 <= i < |tail| ==> tail[i] == Sextet(t[4..][i])
    ensures var xs := [Sextet(t[0]), Sextet(t[1]), Sextet(t[2]), Sextet(t[3])] + tail;
            |xs| == |t| - Pads(t) && forall i :: 0 <= i < |t| - Pads(t) ==> xs[i] == Sextet(t[i])
  {
    assert forall i :: 4 <= i < |t| ==> t[i] == t[4..][i - 4];
  }

  lemma {:induction false} UnspellExactly(t: string)
    ensures Unspell(t).Some? <==> IsPadded(t)
    ensures IsPadded(t) ==> |Unspell(t).value| == |t| - Pads(t)
                            && forall i :: 0 <= i < |t| - Pads(t) ==> Unspell(t).value[i] == Sextet(t[i])
    decreases |t|
  {
    if |t| == 4 {
      OneQuantum(t);
    } else if 0 < |t| < 4 {
      TooShort(t);
    } else if 4 < |t| < 8 {
      UnspellFour(t);
      TooShort(t[4..]);
    } else if |t| >= 8 {
      UnspellExactly(t[4..]);
      UnspellFour(t);
      PadsBehind(t);
      PaddedBehind(t);
      if IsPadded(t) {
        PlacesBehind(t, Unspell(t[4..]).value);
      }
    }
  }

  /** The k-th byte that xs spell: eight bits from the 8 * k-th on, six to a sextet. */
  function ByteAt(xs: seq<int>, k: nat): (x: int)
    requires 8 * k + 8 <= 6 * |xs|
  {
    var q := k / 3 * 4;
    if k % 3 == 0 then xs[q] * 4 + xs[q + 1] / 16
    else if k % 3 == 1 then xs[q + 1] % 16 * 16 + xs[q + 2] / 4
    else xs[q + 2] % 4 * 64 + xs[q + 3]
  }

  lemma ByteBehind(xs: seq<sextet>, k: nat)
    requires |xs| >= 4 && k >= 3 && 8 * k + 8 <= 6 * |xs|
    ensures ByteAt(xs, k) == ByteAt(xs[4..], k - 3)
  {
    assert k / 3 == (k - 3) / 3 + 1 && k % 3 == (k - 3) % 3;
  }

  lemma FourSextets(xs: seq<sextet>, tail: bytes)
    requires |xs| >= 4
    requires forall k :: 0 <= k < |tail| ==> 8 * k + 8 <= 6 * |xs[4..]| && tail[k] == ByteAt(xs[4..], k)
    ensures var b := [First(xs[0], xs[1]), Second(xs[1], xs[2]), Third(xs[2], xs[3])] + tail;
            forall k :: 0 <= k < |b| ==> 8 * k + 8 <= 6 * |xs| && b[k] == ByteAt(xs, k)
  {
    var b := [First(xs[0], xs[1]), Second(xs[1], xs[2]), Third(xs[2], xs[3])] + tail;
    forall k | 0 <= k < |b|
      ensures 8 * k + 8 <= 6 * |xs| && b[k] == ByteAt(xs, k)
    {
      if k >= 3 {
        assert b[k] == tail[k - 3];
        ByteBehind(xs, k);
      }
    }
  }

  lemma {:induction false} FromSextetsExactly(xs: seq<sextet>)
    ensures |FromSextets(xs)| == if |xs| % 4 == 1 then |xs| / 4 * 3 else |xs| * 3 / 4
    ensures forall k :: 0 <= k < |FromSextets(xs)| ==> 8 * k + 8 <= 6 * |xs| && FromSextets(xs)[k] == ByteAt(xs, k)
    decreases |xs|
  {
    if |xs| >= 4 {
      FromSextetsExactly(xs[4..]);
      FourSextets(xs, FromSextets(xs[4..]));
    }
  }

  /** The sextets of a padded text. */
  function Sextets(t: string): (xs: seq<sextet>)
    requires IsPadded(t)
  {
    seq(|t| - Pads(t), i requires 0 <= i < |t| - Pads(t) => Sextet(t[i]))
  }

  /** Exactly the texts that are padded quanta, but for line ends, are decoded; each byte is the eight
      bits at its place, and bits left over at the end have no say. */
  lemma DecodeExactly(s: string)
    ensures var t := WithoutNewlines(s);
            && (Decode(s).Some? <==> IsPadded(t))
            && (IsPadded(t) ==>
                  && |Decode(s).value| == |Sextets(t)| * 3 / 4
                  && forall k :: 0 <= k < |Decode(s).value| ==>
                       8 * k + 8 <= 6 * |Sextets(t)| && Decode(s).value[k] == ByteAt(Sextets(t), k))
  {
    var t := WithoutNewlines(s);
    UnspellExactly(t);
    if IsPadded(t) {
      assert Unspell(t).value == Sextets(t);
      FromSextetsExactly(Sextets(t));
    }
  }

  lemma {:induction false} WithoutAppend(a: string, b: string)
    ensures WithoutNewlines(a + b) == WithoutNewlines(a) + WithoutNewlines(b)
  {
    if a == "" {
      assert a + b == b;
    } else {
      assert (a + b)[1..] == a[1..] + b;
      WithoutAppend(a[1..], b);
    }
  }

  /** Line ends may stand anywhere, and make no difference. */
  lemma LineEndsSkipped(a: string, c: char, b: string)
    requires c == '\n' || c == '\r'
    ensures Decode(a + [c] + b) == Decode(a + b)
  {
    assert a + [c] + b == a + ([c] + b);
    assert WithoutNewlines([c]) == "" + WithoutNewlines([c][1..]);
    assert "" + WithoutNewlines(b) == WithoutNewlines(b);
    WithoutAppend(a, [c] + b);
    WithoutAppend([c], b);
    WithoutAppend(a, b);
  }
}
