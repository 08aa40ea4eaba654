/** The other half of JsonGrammar: whatever the reader reads is a text of the language. */
module JsonSoundness {
  import opened JsonGrammar
  import JsonNumbers
  import opened JsonReader
  import opened JsonText
  import opened Decimal

  lemma {:induction false} SkippedAreSpaces(s: string) returns (a: string)
    ensures s == a + SkipSpace(s) && IsSpaces(a)
  {
    a := "";
    if s != "" && IsSpace(s[0]) {
      var b := SkippedAreSpaces(s[1..]);
      a := [s[0]] + b;
      OneMoreInFront(s, b, SkipSpace(s[1..]));
    } else {
      assert s == "" + s;
    }
  }

  lemma OneMoreInFront(s: string, b: string, rest: string)
    requires s != "" && s[1..] == b + rest
    ensures s == [s[0]] + b + rest
  {
    assert s == [s[0]] + s[1..];
  }

  // ---------------------------------------------------------------- strings

  lemma EscapeIsText(s: string)
    requires s != "" && s[0] == '\\' && ScanEscape(s).Got?
    ensures var r := ScanEscape(s); var k := |s| - |r.rest|;
            s == s[..k] + r.rest && IsCharText(s[..k], r.value) && !(k == 6 && IsPair(s))
  {
    var r := ScanEscape(s);
    var k := |s| - |r.rest|;
    assert r.rest == s[k..];
    if k == 6 {
      UnitOfPrefix(s, 6);
    } else if k == 12 {
      UnitOfPrefix(s, 12);
      assert s[..12][6..] == s[6..][..6];
      UnitOfPrefix(s[6..], 6);
    }
  }

  lemma UnitOfPrefix(s: string, k: nat)
    requires 6 <= k <= |s| && IsUnicodeEscape(s)
    ensures IsUnicodeEscape(s[..k]) && CodeUnit(s[..k]) == CodeUnit(s)
  {
  }

  /** A pair does not become one by what is put behind it. */
  lemma PairStays(t: string, rest: string)
    requires IsPair(t)
    ensures IsPair(t + rest)
  {
    CodeUnitOfPrefix(t, rest);
    CodeUnitOfPrefix(t[6..], rest);
    assert (t + rest)[6..] == t[6..] + rest;
  }

  lemma CharIsText(s: string)
    requires s != "" && s[0] >= ' ' && s[0] != '"'
    requires (if s[0] == '\\' then ScanEscape(s) else Got(s[0], s[1..])).Got?
    ensures var r := if s[0] == '\\' then ScanEscape(s) else Got(s[0], s[1..]); var k := |s| - |r.rest|;
            1 <= k && s == s[..k] + r.rest && IsCharText(s[..k], r.value) && !(k == 6 && IsPair(s))
  {
    if s[0] == '\\' {
      EscapeIsText(s);
    } else {
      assert s == s[..1] + s[1..];
    }
  }

  lemma CharInFront(p: string, c: char, t: string, text: string)
    requires p != "" && IsCharText(p, c) && !(|p| == 6 && IsPair(p + t)) && IsChars(t, text)
    ensures IsChars(p + t, [c] + text)
  {
    assert (p + t)[..|p|] == p && (p + t)[|p|..] == t;
    assert ([c] + text)[1..] == text;
    assert IsCharUpTo(p + t, |p|, c);
  }

  lemma TakenThenRest(s: string, k: nat, u: string, rest: string)
    requires k <= |s| && s[k..] == u + rest
    ensures s == s[..k] + u + rest
  {
  }

  /** One character of the string and then the others. */
  lemma CharAndRest(s: string, k: nat, c: char, u: string, text: string, rest: string)
    requires 1 <= k <= |s| && IsCharText(s[..k], c) && !(k == 6 && IsPair(s))
    requires s[k..] == u + rest && IsChars(u, text)
    ensures s == s[..k] + u + rest && IsChars(s[..k] + u, [c] + text)
  {
    TakenThenRest(s, k, u, rest);
    if k == 6 && IsPair(s[..k] + u) {
      PairStays(s[..k] + u, rest);
    }
    CharInFront(s[..k], c, u, text);
  }

  lemma {:induction false} StringIsText(s: string) returns (t: string)
    requires ScanString(s).Got?
    ensures s == t + ("\"" + ScanString(s).rest) && IsChars(t, ScanString(s).value)
    decreases |s|, 1
  {
    if s[0] == '"' {
      t := "";
      assert s == "\"" + s[1..];
    } else {
      t := LongerStringIsText(s);
    }
  }

  lemma {:induction false} LongerStringIsText(s: string) returns (t: string)
    requires ScanString(s).Got? && s[0] != '"'
    ensures s == t + ("\"" + ScanString(s).rest) && IsChars(t, ScanString(s).value)
    decreases |s|, 0
  {
    CharIsText(s);
    var r := if s[0] == '\\' then ScanEscape(s) else Got(s[0], s[1..]);
    var k := |s| - |r.rest|;
    TakenIsRest(s, k, r.rest);
    var u := StringIsText(r.rest);
    CharAndRest(s, k, r.value, u, ScanString(r.rest).value, "\"" + ScanString(r.rest).rest);
    t := s[..k] + u;
  }

  lemma TakenIsRest(s: string, k: nat, rest: string)
    requires k <= |s| && s == s[..k] + rest
    ensures s[k..] == rest
  {
  }

  // ---------------------------------------------------------------- numbers

  lemma {:induction false} DigitsOfPrefix(s: string, n: nat)
    requires n <= |s|
    ensures Digits(s[..n]) == if Digits(s) <= n then Digits(s) else n
  {
    if n > 0 && IsDigit(s[0]) {
      DigitsOfPrefix(s[1..], n - 1);
      assert s[..n][1..] == s[1..][..n - 1];
    }
  }

  lemma IntPartOfPrefix(s: string, n: nat)
    requires 0 <= IntPart(s) <= n <= |s|
    ensures IntPart(s[..n]) == IntPart(s)
  {
    var sign := if s[0] == '-' then 1 else 0;
    DigitsOfPrefix(s[sign..], n - sign);
    assert s[..n][sign..] == s[sign..][..n - sign];
  }

  lemma FractionPartOfPrefix(s: string, n: nat)
    requires 0 <= FractionPart(s) <= n <= |s|
    ensures FractionPart(s[..n]) == FractionPart(s)
  {
    if FractionPart(s) > 0 {
      DigitsOfPrefix(s[1..], n - 1);
      assert s[..n][1..] == s[1..][..n - 1];
    }
  }

  lemma ExponentPartOfItself(s: string)
    requires ExponentPart(s) >= 0
    ensures ExponentPart(s[..ExponentPart(s)]) == ExponentPart(s)
  {
    var n := ExponentPart(s);
    if n > 0 {
      var sign := if |s| > 1 && (s[1] == '+' || s[1] == '-') then 1 else 0;
      DigitsOfPrefix(s[1 + sign..], n - 1 - sign);
      assert s[..n][1 + sign..] == s[1 + sign..][..n - 1 - sign];
    }
  }

  lemma RealPartOfItself(s: string)
    requires RealPart(s) >= 0
    ensures RealPart(s[..RealPart(s)]) == RealPart(s)
  {
    var n, f := RealPart(s), FractionPart(s);
    FractionPartOfPrefix(s, n);
    ExponentPartOfItself(s[f..]);
    assert s[..n][f..] == s[f..][..n - f];
  }

  /** The number literal at the head of a text is one by itself. */
  lemma NumberPartIsNumber(s: string)
    requires NumberPart(s) >= 0
    ensures IsNumber(s[..NumberPart(s)])
  {
    var n, i := NumberPart(s), IntPart(s);
    IntPartOfPrefix(s, n);
    RealPartOfItself(s[i..]);
    assert s[..n][i..] == s[i..][..n - i];
  }

  // ---------------------------------------------------------------- values

  lemma SimpleIsText(s: string, depth: nat)
    requires Simple(s).Got?
    ensures var r := Simple(s); var k := |s| - |r.rest|; s == s[..k] + r.rest && IsValue(s[..k], r.value, depth)
  {
    if HasPrefix(s, "null") || HasPrefix(s, "true") {
      Cut(s, 4);
    } else if HasPrefix(s, "false") {
      Cut(s, 5);
    } else {
      NumberPartIsNumber(s);
      Cut(s, NumberPart(s));
      JsonNumbers.NumberExactly(s[..NumberPart(s)]);
    }
  }

  lemma Cut(s: string, k: nat)
    requires k <= |s|
    ensures s == s[..k] + s[k..] && |s| - |s[k..]| == k
  {
  }

  lemma MoreSpaces(a: string, b: string, s: string)
    requires IsSpaces(a) && IsSpaces(b)
    ensures IsSpaces(a + b) && a + (b + s) == a + b + s
  {
  }

  /** Spaces may stand in front of items... */
  lemma SpacesBeforeItems(e: string, t: string, ns: seq<Json>, depth: nat)
    requires IsSpaces(e) && IsItems(t, ns, depth)
    ensures IsItems(e + t, ns, depth)
  {
    var a, v, b, u :| IsItem(t, ns, depth, a, v, b, u);
    MoreSpaces(e, a, if |ns| == 1 then v + b else v + (b + ("," + u)));
    assert IsItem(e + t, ns, depth, e + a, v, b, u);
  }

  lemma ItemAlone(v: string, b: string, n: Json, depth: nat)
    requires IsValue(v, n, depth) && IsSpaces(b)
    ensures IsItems(v + b, [n], depth)
  {
    assert "" + (v + b) == v + b;
    assert IsItem(v + b, [n], depth, "", v, b, "");
  }

  lemma ItemInFront(v: string, b: string, n: Json, u: string, ns: seq<Json>, depth: nat)
    requires IsValue(v, n, depth) && IsSpaces(b) && IsItems(u, ns, depth)
    ensures IsItems(v + (b + ("," + u)), [n] + ns, depth)
  {
    var t := v + (b + ("," + u));
    assert "" + t == t && ([n] + ns)[1..] == ns;
    assert IsItem(t, [n] + ns, depth, "", v, b, u);
  }

  /** ...and of members. */
  lemma SpacesBeforeMembers(e: string, t: string, ms: seq<Member>, depth: nat)
    requires IsSpaces(e) && IsMembers(t, ms, depth)
    ensures IsMembers(e + t, ms, depth)
  {
    var a, x, d, u :| IsMember(t, ms, depth, a, x, d, u);
    MoreSpaces(e, a, x.Text(if |ms| == 1 then d else d + ("," + u)));
    assert IsMember(e + t, ms, depth, e + a, x, d, u);
  }

  lemma MemberAlone(x: MemberParts, d: string, m: Member, depth: nat)
    requires IsMemberParts(x, m.key) && IsValue(x.v, m.value, depth) && IsSpaces(d)
    ensures IsMembers(x.Text(d), [m], depth)
  {
    assert "" + x.Text(d) == x.Text(d);
    assert IsMember(x.Text(d), [m], depth, "", x, d, "");
  }

  lemma MemberInFront(x: MemberParts, d: string, m: Member, u: string, ms: seq<Member>, depth: nat)
    requires IsMemberParts(x, m.key) && IsValue(x.v, m.value, depth) && IsSpaces(d) && IsMembers(u, ms, depth)
    ensures IsMembers(x.Text(d + ("," + u)), [m] + ms, depth)
  {
    var t := x.Text(d + ("," + u));
    assert "" + t == t && ([m] + ms)[1..] == ms;
    assert IsMember(t, [m] + ms, depth, "", x, d, u);
  }

  lemma Enclose(open: char, s: string, close: char)
    ensures IsBetween([open] + s + [close], open, close) && Inside([open] + s + [close]) == s
  {
  }

  lemma FirstAndRest(s: string)
    requires s != ""
    ensures s == [s[0]] + s[1..]
  {
  }

  lemma JoinEnclosed(open: string, a: string, u: string, close: string, rest: string)
    ensures open + (a + (u + (close + rest))) == open + (a + u) + close + rest
  {
  }

  lemma QuotedIsText(s: string) returns (q: string)
    requires StartsWith(s, '"') && ScanString(s[1..]).Got?
    ensures s == q + ScanString(s[1..]).rest && IsBetween(q, '"', '"') && IsChars(Inside(q), ScanString(s[1..]).value)
  {
    var u := StringIsText(s[1..]);
    q := "\"" + u + "\"";
    Enclose('"', u, '"');
    FirstAndRest(s);
    JoinEnclosed("\"", "", u, "\"", ScanString(s[1..]).rest);
    assert "" + u == u && "" + (u + ("\"" + ScanString(s[1..]).rest)) == u + ("\"" + ScanString(s[1..]).rest);
  }

  /** Whatever is read as a value was that value's text. */
  lemma {:induction false} ValueIsText(s: string, depth: nat) returns (t: string)
    requires Value(s, depth).Got?
    ensures s == t + Value(s, depth).rest && IsValue(t, Value(s, depth).value, depth)
    decreases |s|, 1
  {
    if s[0] == '"' {
      t := QuotedIsText(s);
    } else if s[0] == '[' {
      t := ArrayIsText(s, depth);
    } else if s[0] == '{' {
      t := ObjectIsText(s, depth);
    } else {
      SimpleIsText(s, depth);
      t := s[..|s| - |Simple(s).rest|];
    }
  }

  lemma ArrayText(u: string, ns: seq<Json>, depth: nat)
    requires if ns == [] then IsSpaces(u) else IsItems(u, ns, depth)
    ensures IsValue("[" + u + "]", Array(ns), depth + 1)
  {
    Enclose('[', u, ']');
  }

  /** An opening, what is inside, and a closing, taken apart again. */
  lemma Reclose(s: string, open: char, a: string, u: string, close: char, rest: string)
    requires s != "" && s[0] == open && s[1..] == a + (u + ([close] + rest))
    ensures s == [open] + (a + u) + [close] + rest
  {
    FirstAndRest(s);
    JoinEnclosed([open], a, u, [close], rest);
  }

  lemma RecloseEmpty(s: string, open: char, a: string, close: char, inner: string)
    requires s != "" && s[0] == open && s[1..] == a + inner && StartsWith(inner, close)
    ensures s == [open] + a + [close] + inner[1..]
  {
    FirstAndRest(inner);
    assert a + "" == a && "" + inner == inner;
    Reclose(s, open, a, "", close, inner[1..]);
  }

  lemma AroundNoItems(s: string, a: string, inner: string, depth: nat) returns (t: string)
    requires StartsWith(s, '[') && s[1..] == a + inner && IsSpaces(a) && StartsWith(inner, ']')
    ensures s == t + inner[1..] && IsValue(t, Array([]), depth + 1)
  {
    t := "[" + a + "]";
    RecloseEmpty(s, '[', a, ']', inner);
    ArrayText(a, [], depth);
  }

  lemma AroundItems(s: string, a: string, inner: string, u: string, ns: seq<Json>, rest: string, depth: nat)
    returns (t: string)
    requires StartsWith(s, '[') && s[1..] == a + inner && inner == u + ("]" + rest)
    requires IsSpaces(a) && IsItems(u, ns, depth)
    ensures s == t + rest && IsValue(t, Array(ns), depth + 1)
  {
    t := "[" + (a + u) + "]";
    Reclose(s, '[', a, u, ']', rest);
    SpacesBeforeItems(a, u, ns, depth);
    ArrayText(a + u, ns, depth);
  }

  lemma {:induction false} FilledArrayIsText(s: string, a: string, inner: string, depth: nat) returns (t: string)
    requires StartsWith(s, '[') && s[1..] == a + inner && IsSpaces(a) && Items(inner, depth).Got?
    ensures var r := Items(inner, depth); s == t + r.rest && IsValue(t, Array(r.value), depth + 1)
    decreases |inner|, 4
  {
    var u := ItemsAreText(inner, depth);
    var r := Items(inner, depth);
    t := AroundItems(s, a, inner, u, r.value, r.rest, depth);
  }

  lemma {:induction false} ArrayIsText(s: string, depth: nat) returns (t: string)
    requires s != "" && s[0] == '[' && Value(s, depth).Got?
    ensures s == t + Value(s, depth).rest && IsValue(t, Value(s, depth).value, depth)
    decreases |s|, 0
  {
    var a := SkippedAreSpaces(s[1..]);
    var inner := SkipSpace(s[1..]);
    if StartsWith(inner, ']') {
      assert Value(s, depth) == Got(Array([]), inner[1..]);
      t := AroundNoItems(s, a, inner, depth - 1);
    } else {
      t := FilledArrayIsText(s, a, inner, depth - 1);
    }
  }

  lemma {:induction false} ItemsAreText(s: string, depth: nat) returns (t: string)
    requires Items(s, depth).Got?
    ensures s == t + ("]" + Items(s, depth).rest) && IsItems(t, Items(s, depth).value, depth)
    decreases |s|, 2
  {
    var v := ValueIsText(s, depth);
    var r := Value(s, depth);
    var b := SkippedAreSpaces(r.rest);
    var next := SkipSpace(r.rest);
    FirstAndRest(next);
    if StartsWith(next, ']') {
      t := v + b;
      ItemAlone(v, b, r.value, depth);
      ItemRegroup("", v, b, next);
      assert "" + t == t && "" + (v + (b + next)) == v + (b + next);
    } else {
      t := NextItemsAreText(v, r.value, b, next[1..], depth);
    }
  }

  lemma {:induction false} NextItemsAreText(v: string, n: Json, b: string, s: string, depth: nat) returns (t: string)
    requires IsValue(v, n, depth) && IsSpaces(b) && Items(SkipSpace(s), depth).Got?
    ensures var r := Items(SkipSpace(s), depth);
            v + (b + ("," + s)) == t + ("]" + r.rest) && IsItems(t, [n] + r.value, depth)
    decreases |s|, 3
  {
    var a := SkippedAreSpaces(s);
    var u := ItemsAreText(SkipSpace(s), depth);
    var r := Items(SkipSpace(s), depth);
    SpacesBeforeItems(a, u, r.value, depth);
    ItemInFront(v, b, n, a + u, r.value, depth);
    t := v + (b + ("," + (a + u)));
    JoinItems(v, b, a, u, "]" + r.rest);
  }

  lemma JoinItems(v: string, b: string, a: string, u: string, rest: string)
    ensures v + (b + ("," + (a + (u + rest)))) == v + (b + ("," + (a + u))) + rest
  {
  }

  lemma ObjectText(u: string, ms: seq<Member>, depth: nat)
    requires if ms == [] then IsSpaces(u) else IsMembers(u, ms, depth)
    ensures IsValue("{" + u + "}", Object(LastWins(ms)), depth + 1)
  {
    LastWinsExactly(LastWins(ms), ms);
    Enclose('{', u, '}');
  }

  lemma AroundNoMembers(s: string, a: string, inner: string, depth: nat) returns (t: string)
    requires StartsWith(s, '{') && s[1..] == a + inner && IsSpaces(a) && StartsWith(inner, '}')
    ensures s == t + inner[1..] && IsValue(t, Object(map[]), depth + 1)
  {
    t := "{" + a + "}";
    RecloseEmpty(s, '{', a, '}', inner);
    ObjectText(a, [], depth);
  }

  lemma AroundMembers(s: string, a: string, inner: string, u: string, ms: seq<Member>, rest: string, depth: nat)
    returns (t: string)
    requires StartsWith(s, '{') && s[1..] == a + inner && inner == u + ("}" + rest)
    requires IsSpaces(a) && IsMembers(u, ms, depth)
    ensures s == t + rest && IsValue(t, Object(LastWins(ms)), depth + 1)
  {
    t := "{" + (a + u) + "}";
    Reclose(s, '{', a, u, '}', rest);
    SpacesBeforeMembers(a, u, ms, depth);
    ObjectText(a + u, ms, depth);
  }

  lemma {:induction false} FilledObjectIsText(s: string, a: string, inner: string, depth: nat) returns (t: string)
    requires StartsWith(s, '{') && s[1..] == a + inner && IsSpaces(a) && Members(inner, depth).Got?
    ensures var r := Members(inner, depth); s == t + r.rest && IsValue(t, Object(LastWins(r.value)), depth + 1)
    decreases |inner|, 4
  {
    var u := MembersAreText(inner, depth);
    var r := Members(inner, depth);
    t := AroundMembers(s, a, inner, u, r.value, r.rest, depth);
  }

  lemma {:induction false} ObjectIsText(s: string, depth: nat) returns (t: string)
    requires s != "" && s[0] == '{' && Value(s, depth).Got?
    ensures s == t + Value(s, depth).rest && IsValue(t, Value(s, depth).value, depth)
    decreases |s|, 0
  {
    var a := SkippedAreSpaces(s[1..]);
    var inner := SkipSpace(s[1..]);
    if StartsWith(inner, '}') {
      assert Value(s, depth) == Got(Object(map[]), inner[1..]);
      t := AroundNoMembers(s, a, inner, depth - 1);
    } else {
      t := FilledObjectIsText(s, a, inner, depth - 1);
    }
  }

  lemma {:induction false} MemberIsText(s: string, depth: nat) returns (x: MemberParts)
    requires OneMember(s, depth).Got?
    ensures var r := OneMember(s, depth);
            s == x.Text(r.rest) && IsMemberParts(x, r.value.key) && IsValue(x.v, r.value.value, depth)
    decreases |s|, 2
  {
    var q := QuotedIsText(s);
    var colon := ScanString(s[1..]).rest;
    var b := SkippedAreSpaces(colon);
    var afterKey := SkipSpace(colon);
    FirstAndRest(afterKey);
    var c := SkippedAreSpaces(afterKey[1..]);
    var v := ValueIsText(SkipSpace(afterKey[1..]), depth);
    x := MemberParts(q, b, c, v);
  }

  lemma {:induction false} MembersAreText(s: string, depth: nat) returns (t: string)
    requires Members(s, depth).Got?
    ensures s == t + ("}" + Members(s, depth).rest) && IsMembers(t, Members(s, depth).value, depth)
    decreases |s|, 3
  {
    var x := MemberIsText(s, depth);
    var r := OneMember(s, depth);
    var d := SkippedAreSpaces(r.rest);
    var next := SkipSpace(r.rest);
    FirstAndRest(next);
    if StartsWith(next, '}') {
      t := x.Text(d);
      MemberAlone(x, d, r.value, depth);
      TextRegroup(x, d, next);
    } else {
      t := NextMembersAreText(x, r.value, d, next[1..], depth);
    }
  }

  lemma {:induction false} NextMembersAreText(x: MemberParts, m: Member, d: string, s: string, depth: nat)
    returns (t: string)
    requires IsMemberParts(x, m.key) && IsValue(x.v, m.value, depth) && IsSpaces(d) && Members(SkipSpace(s), depth).Got?
    ensures var r := Members(SkipSpace(s), depth);
            x.Text(d + ("," + s)) == t + ("}" + r.rest) && IsMembers(t, [m] + r.value, depth)
    decreases |s|, 4
  {
    var a := SkippedAreSpaces(s);
    var u := MembersAreText(SkipSpace(s), depth);
    var r := Members(SkipSpace(s), depth);
    SpacesBeforeMembers(a, u, r.value, depth);
    MemberInFront(x, d, m, a + u, r.value, depth);
    t := x.Text(d + ("," + (a + u)));
    TextRegroup(x, d + ("," + (a + u)), "}" + r.rest);
    JoinComma(d, a, u, "}" + r.rest);
  }

  lemma JoinComma(d: string, a: string, u: string, rest: string)
    ensures d + ("," + (a + (u + rest))) == d + ("," + (a + u)) + rest
  {
  }

  // ---------------------------------------------------------------- both halves

  ghost predicate IsDocumentOf(text: string, n: Json, a: string, t: string, b: string) {
    text == a + (t + b) && IsSpaces(a) && IsValue(t, n, 10000) && IsSpaces(b)
  }

  /** text is one value of the language with spaces around it and nothing else. */
  ghost predicate IsDocument(text: string, n: Json) {
    exists a, t, b :: IsDocumentOf(text, n, a, t, b)
  }

  /** The decoder gives n and leaves nothing but spaces. */
  predicate DecodesWhole(text: string, n: Json) {
    Decode(text).Got? && Decode(text).value == n && SkipSpace(Decode(text).rest) == ""
  }

  lemma DecodedIsDocument(text: string, n: Json)
    requires DecodesWhole(text, n)
    ensures IsDocument(text, n)
  {
    var a := SkippedAreSpaces(text);
    var t := ValueIsText(SkipSpace(text), MAX_DEPTH);
    var b := SkippedAreSpaces(Decode(text).rest);
    assert b + "" == b;
    assert IsDocumentOf(text, n, a, t, b);
  }

  lemma DocumentIsDecoded(text: string, n: Json)
    requires IsDocument(text, n)
    ensures DecodesWhole(text, n)
  {
    var a, t, b :| IsDocumentOf(text, n, a, t, b);
    TextIsRead(t, n, MAX_DEPTH);
    assert (t + b)[0] == t[0];
    SkipsSpaces(a, t + b);
    assert b + "" == b;
    SkipsSpaces(b, "");
    SpacesEndNumber(b, "");
  }

  /** A tree is decoded from exactly the texts of the language: whatever white space, escapes and
      order they choose, and nothing beside them. */
  lemma ParsedExactly(text: string, n: Json)
    ensures DecodesWhole(text, n) <==> IsDocument(text, n)
  {
    if DecodesWhole(text, n) {
      DecodedIsDocument(text, n);
    }
    if IsDocument(text, n) {
      DocumentIsDecoded(text, n);
    }
  }
}
