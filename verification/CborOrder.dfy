/** What deterministic CBOR is good for: no encoding begins another's, so an encoding names its value,
    and text keys stand shorter first, then bytewise. */
module CborOrder {
  import opened Bytes
  import opened WireValue
  import Canonical
  import Utf8

  function Pow256(n: nat): (p: nat)
    ensures p > 0
  {
    if n == 0 then 1 else 256 * Pow256(n - 1)
  }

  lemma PowersUsed()
    ensures Pow256(1) == 0x100 && Pow256(2) == 0x10000 && Pow256(4) == 0x1_0000_0000
    ensures Pow256(8) == 0x1_0000_0000_0000_0000
  {
    assert Pow256(4) == 256 * (256 * Pow256(2));
    assert Pow256(6) == 256 * (256 * Pow256(4));
    assert Pow256(8) == 256 * (256 * Pow256(6));
  }

  // ---------------------------------------------------------------- numbers

  lemma {:induction false} BigEndianInjective(x: nat, y: nat, n: nat)
    requires x < Pow256(n) && y < Pow256(n) && BigEndian(x, n) == BigEndian(y, n)
    ensures x == y
  {
    if n > 0 {
      var a, b := BigEndian(x / 256, n - 1), BigEndian(y / 256, n - 1);
      assert a == BigEndian(x, n)[..n - 1] == BigEndian(y, n)[..n - 1] == b;
      assert x % 256 == BigEndian(x, n)[n - 1] == BigEndian(y, n)[n - 1] == y % 256;
      BigEndianInjective(x / 256, y / 256, n - 1);
    }
  }

  /** Of two numbers of one width the smaller comes first. */
  lemma {:induction false} BigEndianLess(x: nat, y: nat, n: nat, a: bytes, b: bytes)
    requires x < y < Pow256(n)
    ensures Less(BigEndian(x, n) + a, BigEndian(y, n) + b)
  {
    var p, q := BigEndian(x / 256, n - 1), BigEndian(y / 256, n - 1);
    assert BigEndian(x, n) + a == p + ([x % 256] + a);
    assert BigEndian(y, n) + b == q + ([y % 256] + b);
    if x / 256 < y / 256 {
      BigEndianLess(x / 256, y / 256, n - 1, [x % 256] + a, [y % 256] + b);
    } else {
      LessAtDifference(p, [x % 256] + a, [y % 256] + b);
    }
  }

  const UINT64: int := 0x1_0000_0000_0000_0000

  /** The number of argument bytes behind a head's first byte. */
  function ArgumentWidth(n: nat): (w: nat) {
    if n < 24 then 0 else if n < 0x100 then 1 else if n < 0x10000 then 2 else if n < 0x1_0000_0000 then 4 else 8
  }

  lemma HeadShape(major: nat, n: nat)
    requires major < 8 && n < UINT64
    ensures |Head(major, n)| == 1 + ArgumentWidth(n)
    ensures Head(major, n)[1..] == BigEndian(n, ArgumentWidth(n))
    ensures ArgumentWidth(n) > 0 ==> n < Pow256(ArgumentWidth(n))
    ensures Head(major, n)[0] == major * 32 + if n < 24 then n else if n < 0x100 then 24
                                 else if n < 0x10000 then 25 else if n < 0x1_0000_0000 then 26 else 27
  {
    PowersUsed();
  }

  lemma HeadPrefixFree(m: nat, x: nat, k: nat, y: nat, r: bytes, t: bytes)
    requires m < 8 && k < 8 && x < UINT64 && y < UINT64
    requires Head(m, x) + r == Head(k, y) + t
    ensures m == k && x == y && r == t
  {
    HeadShape(m, x);
    HeadShape(k, y);
    var g, h := Head(m, x), Head(k, y);
    assert g[0] == (g + r)[0] == h[0];
    assert m == k && |g| == |h|;
    assert g == (g + r)[..|g|] == h;
    assert r == (g + r)[|g|..] == t;
    if ArgumentWidth(x) > 0 {
      assert BigEndian(x, ArgumentWidth(x)) == g[1..] == BigEndian(y, ArgumentWidth(x));
      BigEndianInjective(x, y, ArgumentWidth(x));
    }
  }

  lemma SameWidth(m: nat, x: nat, y: nat)
    requires m < 8 && x < y < UINT64 && Head(m, x)[0] == Head(m, y)[0]
    ensures ArgumentWidth(x) == ArgumentWidth(y) > 0
  {
    HeadShape(m, x);
    HeadShape(m, y);
  }

  lemma BehindFirst(g: bytes, a: bytes, c: bytes)
    requires g != [] && g[1..] == c
    ensures (g + a)[1..] == c + a
  {
  }

  lemma SameWidthLess(m: nat, x: nat, y: nat, a: bytes, b: bytes)
    requires m < 8 && x < y < UINT64 && Head(m, x)[0] == Head(m, y)[0]
    ensures Less((Head(m, x) + a)[1..], (Head(m, y) + b)[1..])
  {
    SameWidth(m, x, y);
    HeadShape(m, x);
    HeadShape(m, y);
    var w := ArgumentWidth(x);
    BigEndianLess(x, y, w, a, b);
    BehindFirst(Head(m, x), a, BigEndian(x, w));
    BehindFirst(Head(m, y), b, BigEndian(y, w));
  }

  lemma HeadLess(m: nat, x: nat, y: nat, a: bytes, b: bytes)
    requires m < 8 && x < y < UINT64
    ensures Less(Head(m, x) + a, Head(m, y) + b)
  {
    HeadShape(m, x);
    HeadShape(m, y);
    var g, h := Head(m, x), Head(m, y);
    assert (g + a)[0] == g[0] && (h + b)[0] == h[0];
    if g[0] == h[0] {
      SameWidthLess(m, x, y, a, b);
    }
  }

  /** Some of the examples of appendix A of RFC 8949. */
  lemma ExampleIntegers()
    ensures Encode(Int(0)) == [0x00] && Encode(Int(23)) == [0x17] && Encode(Int(24)) == [0x18, 0x18]
    ensures Encode(Int(100)) == [0x18, 0x64] && Encode(Int(1000)) == [0x19, 0x03, 0xE8]
    ensures Encode(Int(1000000)) == [0x1A, 0x00, 0x0F, 0x42, 0x40]
    ensures Encode(Int(-1)) == [0x20] && Encode(Int(-10)) == [0x29] && Encode(Int(-100)) == [0x38, 0x63]
    ensures Encode(Int(-1000)) == [0x39, 0x03, 0xE7]
  {
    assert BigEndian(1000, 2) == [0x03, 0xE8] && BigEndian(999, 2) == [0x03, 0xE7];
    assert BigEndian(15, 2) == [0x00, 0x0F];
    assert BigEndian(3906, 3) == [0x00, 0x0F, 0x42];
  }

  lemma ExampleTexts()
    ensures Encode(Value.Null) == [0xF6] && Encode(Text("")) == [0x60] && Encode(Text("a")) == [0x61, 0x61]
    ensures Encode(Text([0xFC as char])) == [0x62, 0xC3, 0xBC]
    ensures Encode(Text([0x6C34 as char])) == [0x63, 0xE6, 0xB0, 0xB4]
    ensures Encode(Text([0x10151 as char])) == [0x64, 0xF0, 0x90, 0x85, 0x91]
    ensures Encode(Blob([])) == [0x40] && Encode(Blob([1, 2, 3, 4])) == [0x44, 0x01, 0x02, 0x03, 0x04]
  {
    OneCharText(0xFC as char);
    OneCharText(0x6C34 as char);
    OneCharText(0x10151 as char);
  }

  lemma OneCharText(c: char)
    ensures Encode(Text([c])) == [0x60 + |Utf8.EncodeChar(c)|] + Utf8.EncodeChar(c)
  {
    assert [c][1..] == "";
    assert Utf8.Encode([c]) == Utf8.EncodeChar(c) + [] == Utf8.EncodeChar(c);
  }

  lemma ExampleLists()
    ensures Encode(List([])) == [0x80] && Encode(Map([])) == [0xA0]
    ensures Encode(List([Int(1), List([Int(2)])])) == [0x82, 0x01, 0x81, 0x02]
  {
  }

  // ---------------------------------------------------------------- text keys

  /** The wire's order of text keys: the one with fewer bytes first, code point by code point among
      equally long ones, across every width of head. */
  lemma TextKeyOrder(s: string, t: string)
    requires Utf8.Size(s) < UINT64 && Utf8.Size(t) < UINT64
    ensures Less(EncodeAsIs(Text(s)), EncodeAsIs(Text(t))) <==>
            Utf8.Size(s) < Utf8.Size(t) || (Utf8.Size(s) == Utf8.Size(t) && Utf8.TextBefore(s, t))
  {
    Utf8.EncodedSize(s);
    Utf8.EncodedSize(t);
    Utf8.OrderIsCodePointOrder(s, t);
    var u, w := Utf8.Encode(s), Utf8.Encode(t);
    if |u| < |w| {
      HeadLess(3, |u|, |w|, u, w);
    } else if |u| > |w| {
      HeadLess(3, |w|, |u|, w, u);
      LessAsymmetric(EncodeAsIs(Text(t)), EncodeAsIs(Text(s)));
    } else {
      LessAtDifference(Head(3, |u|), u, w);
    }
  }

  /** The order is strict and total on different keys. */
  lemma TextKeysComparable(s: string, t: string)
    ensures s == t || Less(EncodeAsIs(Text(s)), EncodeAsIs(Text(t))) != Less(EncodeAsIs(Text(t)), EncodeAsIs(Text(s)))
    ensures !Less(EncodeAsIs(Text(s)), EncodeAsIs(Text(s)))
  {
    var a, b := EncodeAsIs(Text(s)), EncodeAsIs(Text(t));
    LessIrreflexive(a);
    LessTotal(a, b);
    if Less(a, b) {
      LessAsymmetric(a, b);
    } else if a == b {
      Canonical.TextKeyInjective(s, t);
    }
  }

  // ---------------------------------------------------------------- whole values

  /** Every length and integer fits a uint64, as it does in any machine that holds the value. */
  ghost predicate Sized(v: Value) {
    match v
    case Int(i) => -UINT64 <= i < UINT64
    case Text(t) => |Utf8.Encode(t)| < UINT64
    case Blob(b) => |b| < UINT64
    case List(items) => |items| < UINT64 && forall i :: 0 <= i < |items| ==> Sized(items[i])
    case Map(entries) =>
      |entries| < UINT64 && forall i :: 0 <= i < |entries| ==> Sized(entries[i].key) && Sized(entries[i].val)
    case Other(_) => false
    case _ => true
  }

  function Major(v: Value): (m: nat)
    requires !v.Other?
    ensures m < 8
  {
    match v
    case Int(i) => if i >= 0 then 0 else 1
    case Blob(_) => 2
    case Text(_) => 3
    case List(_) => 4
    case Map(_) => 5
    case _ => 7
  }

  /** The first byte tells what kind of value follows. */
  lemma FirstByte(v: Value)
    requires Sized(v)
    ensures EncodeAsIs(v) != [] && EncodeAsIs(v)[0] / 32 == Major(v)
    ensures v.Null? ==> EncodeAsIs(v)[0] == 0xF6
    ensures v.Float? ==> EncodeAsIs(v)[0] == 0xFB
  {
    match v
    case Int(i) => HeadShape(Major(v), if i >= 0 then i else -1 - i);
    case Text(t) => HeadShape(3, |Utf8.Encode(t)|);
    case Blob(b) => HeadShape(2, |b|);
    case List(items) => HeadShape(4, |items|);
    case Map(entries) => HeadShape(5, |entries|);
    case _ =>
  }

  lemma SameKind(v: Value, w: Value, r: bytes, t: bytes)
    requires Sized(v) && Sized(w) && EncodeAsIs(v) + r == EncodeAsIs(w) + t
    ensures Major(v) == Major(w) && (v.Null? <==> w.Null?)
  {
    FirstByte(v);
    FirstByte(w);
    assert EncodeAsIs(v)[0] == (EncodeAsIs(v) + r)[0] == (EncodeAsIs(w) + t)[0] == EncodeAsIs(w)[0];
  }

  lemma FloatPrefixFree(f: Bits, g: Bits, r: bytes, t: bytes)
    requires EncodeAsIs(Float(f)) + r == EncodeAsIs(Float(g)) + t
    ensures f == g && r == t
  {
    var a, b := EncodeAsIs(Float(f)), EncodeAsIs(Float(g));
    assert a == (a + r)[..9] == b && r == (a + r)[9..] == t;
    assert a[1..] == BigEndian(f, 8) && b[1..] == BigEndian(g, 8);
    PowersUsed();
    BigEndianInjective(f, g, 8);
  }

  /** A head and as many bytes as it announces. */
  lemma CountedPrefixFree(m: nat, a: bytes, b: bytes, r: bytes, t: bytes)
    requires m < 8 && |a| < UINT64 && |b| < UINT64
    requires Head(m, |a|) + a + r == Head(m, |b|) + b + t
    ensures a == b && r == t
  {
    assert Head(m, |a|) + a + r == Head(m, |a|) + (a + r);
    assert Head(m, |b|) + b + t == Head(m, |b|) + (b + t);
    HeadPrefixFree(m, |a|, m, |b|, a + r, b + t);
    assert a == (a + r)[..|a|] == b && r == (a + r)[|a|..] == t;
  }

  /** No value's encoding begins another's. */
  lemma {:induction false} EncodingPrefixFree(v: Value, w: Value, r: bytes, t: bytes)
    requires Sized(v) && Sized(w) && EncodeAsIs(v) + r == EncodeAsIs(w) + t
    ensures v == w && r == t
    decreases v, 0
  {
    SameKind(v, w, r, t);
    match v
    case Null =>
      assert r == (EncodeAsIs(v) + r)[1..] == t;
    case Int(i) =>
      HeadPrefixFree(Major(v), if i >= 0 then i else -1 - i, Major(w), if w.i >= 0 then w.i else -1 - w.i, r, t);
    case Float(f) => FloatPrefixFree(f, w.bits, r, t);
    case Text(s) =>
      CountedPrefixFree(3, Utf8.Encode(s), Utf8.Encode(w.text), r, t);
      Utf8.EncodeInjective(s, w.text);
    case Blob(b) => CountedPrefixFree(2, b, w.bytes, r, t);
    case List(items) =>
      Regroup(Head(4, |items|), EncodeItems(items), r);
      Regroup(Head(4, |w.items|), EncodeItems(w.items), t);
      HeadPrefixFree(4, |items|, 4, |w.items|, EncodeItems(items) + r, EncodeItems(w.items) + t);
      ItemsPrefixFree(items, w.items, r, t);
    case Map(entries) =>
      Regroup(Head(5, |entries|), EncodeEntries(entries), r);
      Regroup(Head(5, |w.entries|), EncodeEntries(w.entries), t);
      HeadPrefixFree(5, |entries|, 5, |w.entries|, EncodeEntries(entries) + r, EncodeEntries(w.entries) + t);
      EntriesPrefixFree(entries, w.entries, r, t);
  }

  lemma Regroup(a: bytes, b: bytes, c: bytes)
    ensures a + b + c == a + (b + c)
  {
  }

  lemma {:induction false} ItemsPrefixFree(vs: seq<Value>, ws: seq<Value>, r: bytes, t: bytes)
    requires |vs| == |ws| && EncodeItems(vs) + r == EncodeItems(ws) + t
    requires forall i :: 0 <= i < |vs| ==> Sized(vs[i]) && Sized(ws[i])
    ensures vs == ws && r == t
    decreases vs, 1
  {
    if vs == [] {
      assert EncodeItems(vs) + r == r && EncodeItems(ws) + t == t;
    } else {
      Regroup(EncodeAsIs(vs[0]), EncodeItems(vs[1..]), r);
      Regroup(EncodeAsIs(ws[0]), EncodeItems(ws[1..]), t);
      EncodingPrefixFree(vs[0], ws[0], EncodeItems(vs[1..]) + r, EncodeItems(ws[1..]) + t);
      ItemsPrefixFree(vs[1..], ws[1..], r, t);
      assert vs == [vs[0]] + vs[1..] && ws == [ws[0]] + ws[1..];
    }
  }

  lemma {:induction false} EntryPrefixFree(e: Entry, f: Entry, r: bytes, t: bytes)
    requires EncodeEntry(e) + r == EncodeEntry(f) + t
    requires Sized(e.key) && Sized(e.val) && Sized(f.key) && Sized(f.val)
    ensures e == f && r == t
    decreases e, 1
  {
    Regroup(EncodeAsIs(e.key), EncodeAsIs(e.val), r);
    Regroup(EncodeAsIs(f.key), EncodeAsIs(f.val), t);
    EncodingPrefixFree(e.key, f.key, EncodeAsIs(e.val) + r, EncodeAsIs(f.val) + t);
    EncodingPrefixFree(e.val, f.val, r, t);
  }

  lemma {:induction false} EntriesPrefixFree(es: seq<Entry>, fs: seq<Entry>, r: bytes, t: bytes)
    requires |es| == |fs| && EncodeEntries(es) + r == EncodeEntries(fs) + t
    requires forall i :: 0 <= i < |es| ==> Sized(es[i].key) && Sized(es[i].val) && Sized(fs[i].key) && Sized(fs[i].val)
    ensures es == fs && r == t
    decreases es, 2
  {
    if es == [] {
      assert EncodeEntries(es) + r == r && EncodeEntries(fs) + t == t;
    } else {
      Regroup(EncodeEntry(es[0]), EncodeEntries(es[1..]), r);
      Regroup(EncodeEntry(fs[0]), EncodeEntries(fs[1..]), t);
      EntryPrefixFree(es[0], fs[0], EncodeEntries(es[1..]) + r, EncodeEntries(fs[1..]) + t);
      EntriesPrefixFree(es[1..], fs[1..], r, t);
      assert es == [es[0]] + es[1..] && fs == [fs[0]] + fs[1..];
    }
  }
}
