/** The language of RFC 8259 as a relation between texts and trees, and the proof that the reader reads
    exactly it: every text of the language, whatever its white space and escapes, and no other. */
module JsonGrammar {
  import opened JsonReader
  import opened JsonText
  import JsonNumbers

  ghost predicate IsSpaces(s: string) {
    forall i :: 0 <= i < |s| ==> s[i] == ' ' || s[i] == '\t' || s[i] == '\n' || s[i] == '\r'
  }

  // ---------------------------------------------------------------- strings

  predicate IsShortEscape(e: char, c: char) {
    || (e == c && (c == '"' || c == '\\' || c == '/'))
    || (e == 'b' && c as int == 8) || (e == 'f' && c as int == 12)
    || (e == 'n' && c == '\n') || (e == 'r' && c == '\r') || (e == 't' && c == '\t')
  }

  predicate IsPair(p: string) {
    && |p| >= 12
    && IsUnicodeEscape(p) && 0xD800 <= CodeUnit(p) < 0xDC00
    && IsUnicodeEscape(p[6..]) && 0xDC00 <= CodeUnit(p[6..]) < 0xE000
  }

  /** p is a way to write c between quotes. A surrogate alone is written for the replacement character. */
  predicate IsCharText(p: string, c: char) {
    || (|p| == 1 && p[0] == c && c >= ' ' && c != '"' && c != '\\')
    || (|p| == 2 && p[0] == '\\' && IsShortEscape(p[1], c))
    || (|p| == 6 && IsUnicodeEscape(p)
        && c as int == if 0xD800 <= CodeUnit(p) < 0xE000 then 0xFFFD else CodeUnit(p))
    || (|p| == 12 && IsPair(p) && c as int == 0x10000 + (CodeUnit(p) - 0xD800) * 0x400 + (CodeUnit(p[6..]) - 0xDC00))
  }

  /** t is what stands between the quotes of a string that means text. The halves of a surrogate pair
      are not taken one by one. */
  ghost predicate IsChars(t: string, text: string)
    decreases |text|
  {
    if text == "" then t == ""
    else
      exists k :: 1 <= k <= |t| && IsCharUpTo(t, k, text[0]) && IsChars(t[k..], text[1..])
  }

  /** t begins with a way to write c that is k long. */
  predicate IsCharUpTo(t: string, k: nat, c: char)
    requires k <= |t|
  {
    IsCharText(t[..k], c) && !(k == 6 && IsPair(t))
  }

  // ---------------------------------------------------------------- values

  /** t without its first and last character. */
  function Inside(t: string): (s: string)
    requires |t| >= 2
    ensures |s| < |t|
  {
    t[1..|t| - 1]
  }

  predicate IsBetween(t: string, open: char, close: char) {
    |t| >= 2 && t[0] == open && t[|t| - 1] == close
  }

  /** t is a text of the tree n, with no more than depth arrays and objects inside one another. */
  ghost predicate IsValue(t: string, n: Json, depth: nat)
    decreases |t|, 0
  {
    match n
    case Null => t == "null"
    case Bool(b) => t == if b then "true" else "false"
    case Number(literal) => t == literal && JsonNumbers.IsNumeral(literal)
    case String(text) => IsBetween(t, '"', '"') && IsChars(Inside(t), text)
    case Array(items) =>
      && depth > 0 && IsBetween(t, '[', ']')
      && if items == [] then IsSpaces(Inside(t)) else IsItems(Inside(t), items, depth - 1)
    case Object(members) =>
      && depth > 0 && IsBetween(t, '{', '}')
      && ((members == map[] && IsSpaces(Inside(t)))
          || exists ms :: ms != [] && HoldsLast(members, ms) && IsMembers(Inside(t), ms, depth - 1))
  }

  /** m has the keys of ms, each with the value that comes last under it. */
  ghost predicate HoldsLast(m: map<string, Json>, ms: seq<Member>) {
    && (forall k :: k in m ==> HasKey(ms, k))
    && (forall i :: 0 <= i < |ms| ==> ms[i].key in m)
    && (forall i :: 0 <= i < |ms| && IsLast(ms, i) ==> m[ms[i].key] == ms[i].value)
  }

  ghost predicate HasKey(ms: seq<Member>, k: string) {
    exists i :: 0 <= i < |ms| && ms[i].key == k
  }

  /** No later member has the i-th one's key. */
  predicate IsLast(ms: seq<Member>, i: nat)
    requires i < |ms|
  {
    forall j :: i < j < |ms| ==> ms[j].key != ms[i].key
  }

  /** Items with spaces around them and commas between. */
  ghost predicate IsItems(t: string, ns: seq<Json>, depth: nat)
    decreases |t|, 2
  {
    ns != [] && exists a, v, b, u :: IsItem(t, ns, depth, a, v, b, u)
  }

  /** Spaces a, the first item v, spaces b, and there the end or a comma and the rest u. */
  ghost predicate IsItem(t: string, ns: seq<Json>, depth: nat, a: string, v: string, b: string, u: string)
    requires ns != []
    decreases |t|, 1
  {
    && IsSpaces(a) && IsSpaces(b)
    && t == (if |ns| == 1 then a + (v + b) else a + (v + (b + ("," + u))))
    && IsValue(v, ns[0], depth)
    && (|ns| > 1 ==> IsItems(u, ns[1..], depth))
  }

  /** The same for members. */
  ghost predicate IsMembers(t: string, ms: seq<Member>, depth: nat)
    decreases |t|, 2
  {
    ms != [] && exists a, x, d, u :: IsMember(t, ms, depth, a, x, d, u)
  }

  /** Spaces a, the first member x, spaces d, and there the end or a comma and the rest u. */
  ghost predicate IsMember(t: string, ms: seq<Member>, depth: nat, a: string, x: MemberParts, d: string, u: string)
    requires ms != []
    decreases |t|, 1
  {
    && IsSpaces(a) && IsSpaces(d)
    && t == a + x.Text(if |ms| == 1 then d else d + ("," + u))
    && |x.v| < |t|
    && IsMemberParts(x, ms[0].key) && IsValue(x.v, ms[0].value, depth)
    && (|ms| > 1 ==> IsMembers(u, ms[1..], depth))
  }

  /** The texts of a member: its key in quotes, spaces, and behind the colon spaces and its value. */
  datatype MemberParts = MemberParts(q: string, b: string, c: string, v: string) {

    /** The member with rest behind it. */
    function Text(rest: string): (t: string)
      ensures |t| == |q| + |b| + 1 + |c| + |v| + |rest|
    {
      q + (b + (":" + (c + (v + rest))))
    }
  }

  ghost predicate IsMemberParts(x: MemberParts, key: string) {
    IsBetween(x.q, '"', '"') && IsChars(Inside(x.q), key) && IsSpaces(x.b) && IsSpaces(x.c)
  }

  // ---------------------------------------------------------------- every text is read

  lemma {:induction false} SkipsSpaces(a: string, s: string)
    requires IsSpaces(a) && (s == "" || !IsSpace(s[0]))
    ensures SkipSpace(a + s) == s
  {
    if a == "" {
      assert a + s == s;
    } else {
      assert (a + s)[1..] == a[1..] + s;
      SkipsSpaces(a[1..], s);
    }
  }

  lemma CodeUnitOfPrefix(p: string, rest: string)
    requires IsUnicodeEscape(p)
    ensures IsUnicodeEscape(p + rest) && CodeUnit(p + rest) == CodeUnit(p)
  {
  }

  /** A lone escape is taken alone, whatever follows it but the other half of its pair. */
  lemma ScanUnit(p: string, rest: string, c: char)
    requires |p| == 6 && IsCharText(p, c) && !IsPair(p + rest)
    ensures ScanEscape(p + rest) == Got(c, rest)
  {
    CodeUnitOfPrefix(p, rest);
    assert (p + rest)[6..] == rest;
  }

  lemma ScanPair(p: string, rest: string, c: char)
    requires |p| == 12 && IsCharText(p, c)
    ensures ScanEscape(p + rest) == Got(c, rest)
  {
    CodeUnitOfPrefix(p, rest);
    CodeUnitOfPrefix(p[6..], rest);
    assert (p + rest)[6..] == p[6..] + rest && (p + rest)[12..] == rest;
  }

  lemma ScanShort(p: string, rest: string, c: char)
    requires |p| == 2 && IsCharText(p, c)
    ensures ScanEscape(p + rest) == Got(c, rest)
  {
    assert (p + rest)[2..] == rest;
  }

  lemma ScanCharText(p: string, rest: string, c: char)
    requires IsCharText(p, c) && !(|p| == 6 && IsPair(p + rest))
    ensures var s := p + rest;
            s[0] >= ' ' && s[0] != '"' && (if s[0] == '\\' then ScanEscape(s) else Got(s[0], s[1..])) == Got(c, rest)
  {
    if |p| == 1 {
      assert (p + rest)[1..] == rest;
    } else if |p| == 2 {
      ScanShort(p, rest, c);
    } else if |p| == 6 {
      ScanUnit(p, rest, c);
    } else {
      ScanPair(p, rest, c);
    }
  }

  /** A pair's second half does not reach beyond the closing quote. */
  lemma PairBeforeQuote(t: string, rest: string)
    requires IsPair(t + ("\"" + rest))
    ensures IsPair(t)
  {
    var s := t + ("\"" + rest);
    assert s[|t|] == '"';
    assert s[6..][0] == s[6] && s[6..][1] == s[7] && s[6..][2] == s[8];
    assert s[6..][3] == s[9] && s[6..][4] == s[10] && s[6..][5] == s[11];
    assert |t| >= 12;
    assert forall i :: 0 <= i < 12 ==> s[i] == t[i];
    assert CodeUnit(t) == CodeUnit(s) && CodeUnit(t[6..]) == CodeUnit(s[6..]);
  }

  lemma ScanOneMore(p: string, c: char, after: string, text: string, rest: string)
    requires IsCharText(p, c) && !(|p| == 6 && IsPair(p + after)) && ScanString(after) == Got(text, rest)
    ensures ScanString(p + after) == Got([c] + text, rest)
  {
    ScanCharText(p, after, c);
  }

  lemma Resplit(t: string, k: nat, rest: string)
    requires k <= |t|
    ensures t + rest == t[..k] + (t[k..] + rest)
  {
  }

  lemma OneMoreChar(t: string, k: nat, c: char, text: string, rest: string)
    requires 1 <= k <= |t| && IsCharUpTo(t, k, c) && ScanString(t[k..] + ("\"" + rest)) == Got(text, rest)
    ensures ScanString(t + ("\"" + rest)) == Got([c] + text, rest)
  {
    var after := t[k..] + ("\"" + rest);
    Resplit(t, k, "\"" + rest);
    if k == 6 && IsPair(t[..k] + after) {
      PairBeforeQuote(t, rest);
    } else {
      ScanOneMore(t[..k], c, after, text, rest);
    }
  }

  lemma {:induction false} CharsAreRead(t: string, text: string, rest: string)
    requires IsChars(t, text)
    ensures ScanString(t + ("\"" + rest)) == Got(text, rest)
    decreases |text|
  {
    if text == "" {
      assert t + ("\"" + rest) == "\"" + rest && ("\"" + rest)[1..] == rest;
    } else {
      var k :| 1 <= k <= |t| && IsCharUpTo(t, k, text[0]) && IsChars(t[k..], text[1..]);
      CharsAreRead(t[k..], text[1..], rest);
      OneMoreChar(t, k, text[0], text[1..], rest);
      assert text == [text[0]] + text[1..];
    }
  }

  ghost predicate Opens(s: string) {
    s != "" && !IsSpace(s[0]) && s[0] != ']' && s[0] != '}'
  }

  /** The reader, given s with text behind it that does not go on a number, reads n and stops behind s. */
  ghost predicate ReadsAs(s: string, n: Json, depth: nat) {
    Opens(s) && forall rest :: EndsNumber(rest) ==> Value(s + rest, depth) == Got(n, rest)
  }

  ghost predicate ItemsReadAs(s: string, ns: seq<Json>, depth: nat) {
    forall rest ::
      var inner := SkipSpace(s + ("]" + rest));
      !StartsWith(inner, ']') && Items(inner, depth) == Got(ns, rest)
  }

  ghost predicate MembersReadAs(s: string, ms: seq<Member>, depth: nat) {
    forall rest ::
      var inner := SkipSpace(s + ("}" + rest));
      !StartsWith(inner, '}') && Members(inner, depth) == Got(ms, rest)
  }

  /** Text that begins like a number is no name. */
  lemma SimpleIsNumber(s: string)
    requires s != "" && (Decimal.IsDigit(s[0]) || s[0] == '-')
    ensures Simple(s) == if NumberPart(s) < 0 then Fail else Got(Number(s[..NumberPart(s)]), s[NumberPart(s)..])
  {
    assert forall p :: HasPrefix(s, p) && p != "" ==> s[0] == s[..|p|][0] == p[0];
  }

  lemma ValueIsSimple(s: string, depth: nat)
    requires s != "" && s[0] != '"' && s[0] != '[' && s[0] != '{'
    ensures Value(s, depth) == Simple(s)
  {
  }

  lemma SimpleReadsLiteral(literal: string, rest: string)
    requires IsNumber(literal) && EndsNumber(rest)
    ensures Simple(literal + rest) == Got(Number(literal), rest)
  {
    var s := literal + rest;
    NumberStart(literal);
    NumberPartLocal(literal, rest);
    SimpleIsNumber(s);
    assert s[..|literal|] == literal && s[|literal|..] == rest;
  }

  lemma LiteralReadsAs(literal: string, depth: nat)
    requires IsNumber(literal)
    ensures ReadsAs(literal, Number(literal), depth)
  {
    NumberStart(literal);
    forall rest | EndsNumber(rest)
      ensures Value(literal + rest, depth) == Got(Number(literal), rest)
    {
      SimpleReadsLiteral(literal, rest);
      assert (literal + rest)[0] == literal[0];
      ValueIsSimple(literal + rest, depth);
    }
  }

  lemma SimpleReadsName(name: string, rest: string)
    requires name == "null" || name == "true" || name == "false"
    ensures Simple(name + rest) == Got(if name == "null" then Null else Bool(name == "true"), rest)
  {
    var s := name + rest;
    assert s[..|name|] == name && s[|name|..] == rest;
    assert forall p :: HasPrefix(s, p) && p != "" ==> s[0] == s[..|p|][0] == p[0];
  }

  lemma NameReadsAs(name: string, depth: nat)
    requires name == "null" || name == "true" || name == "false"
    ensures ReadsAs(name, if name == "null" then Null else Bool(name == "true"), depth)
  {
    forall rest | EndsNumber(rest)
      ensures Value(name + rest, depth) == Got(if name == "null" then Null else Bool(name == "true"), rest)
    {
      assert (name + rest)[0] == name[0];
      ValueIsSimple(name + rest, depth);
      SimpleReadsName(name, rest);
    }
  }

  lemma ValueIsString(s: string, text: string, rest: string, depth: nat)
    requires StartsWith(s, '"') && ScanString(s[1..]) == Got(text, rest)
    ensures Value(s, depth) == Got(String(text), rest)
  {
  }

  lemma InsideOf(t: string, open: char, close: char, rest: string)
    requires IsBetween(t, open, close)
    ensures t[1..] + rest == (t + rest)[1..] == Inside(t) + ([close] + rest)
  {
  }

  lemma StringReadsAs(t: string, text: string, depth: nat)
    requires IsBetween(t, '"', '"') && IsChars(Inside(t), text)
    ensures ReadsAs(t, String(text), depth)
  {
    forall rest: string
      ensures Value(t + rest, depth) == Got(String(text), rest)
    {
      CharsAreRead(Inside(t), text, rest);
      InsideOf(t, '"', '"', rest);
      ValueIsString(t + rest, text, rest, depth);
    }
  }

  // Arrays.

  lemma LastItem(s: string, n: Json, b: string, rest: string, depth: nat)
    requires Value(s, depth) == Got(n, b + ("]" + rest)) && IsSpaces(b)
    ensures Items(s, depth) == Got([n], rest)
  {
    SkipsSpaces(b, "]" + rest);
    assert ("]" + rest)[1..] == rest;
  }

  lemma NextItem(s: string, n: Json, b: string, next: string, ns: seq<Json>, rest: string, depth: nat)
    requires Value(s, depth) == Got(n, b + ("," + next)) && IsSpaces(b)
    requires Items(SkipSpace(next), depth) == Got(ns, rest)
    ensures Items(s, depth) == Got([n] + ns, rest)
  {
    SkipsSpaces(b, "," + next);
    assert ("," + next)[1..] == next;
  }

  lemma SpacesEndNumber(b: string, rest: string)
    requires IsSpaces(b) && EndsNumber(rest)
    ensures EndsNumber(b + rest)
  {
    assert b != "" ==> (b + rest)[0] == b[0];
    assert b == "" ==> b + rest == rest;
  }

  /** What stands behind the spaces before an item. */
  lemma ItemSpacesSkipped(a: string, v: string, rest: string)
    requires IsSpaces(a) && Opens(v)
    ensures SkipSpace(a + (v + rest)) == v + rest && !StartsWith(v + rest, ']')
  {
    assert (v + rest)[0] == v[0];
    SkipsSpaces(a, v + rest);
  }

  lemma ItemRegroup(a: string, v: string, b: string, rest: string)
    ensures a + (v + b) + rest == a + (v + (b + rest))
  {
  }

  lemma OneItemReads(a: string, v: string, b: string, n: Json, depth: nat)
    requires IsSpaces(a) && IsSpaces(b) && ReadsAs(v, n, depth)
    ensures ItemsReadAs(a + (v + b), [n], depth)
  {
    forall rest: string
      ensures var inner := SkipSpace(a + (v + b) + ("]" + rest));
              !StartsWith(inner, ']') && Items(inner, depth) == Got([n], rest)
    {
      SpacesEndNumber(b, "]" + rest);
      ItemRegroup(a, v, b, "]" + rest);
      ItemSpacesSkipped(a, v, b + ("]" + rest));
      LastItem(v + (b + ("]" + rest)), n, b, rest, depth);
    }
  }

  lemma ItemBeforeReads(a: string, v: string, b: string, n: Json, u: string, ns: seq<Json>, depth: nat)
    requires IsSpaces(a) && IsSpaces(b) && ReadsAs(v, n, depth) && ItemsReadAs(u, ns, depth)
    ensures ItemsReadAs(a + (v + (b + ("," + u))), [n] + ns, depth)
  {
    forall rest: string
      ensures var inner := SkipSpace(a + (v + (b + ("," + u))) + ("]" + rest));
              !StartsWith(inner, ']') && Items(inner, depth) == Got([n] + ns, rest)
    {
      var next := u + ("]" + rest);
      SpacesEndNumber(b, "," + next);
      ItemRegroup(a, v, b + ("," + u), "]" + rest);
      CommaRegroup(b, u, "]" + rest);
      ItemSpacesSkipped(a, v, b + ("," + next));
      NextItem(v + (b + ("," + next)), n, b, next, ns, rest, depth);
    }
  }

  lemma ArrayReadsAs(s: string, ns: seq<Json>, depth: nat)
    requires ItemsReadAs(s, ns, depth)
    ensures ReadsAs("[" + s + "]", Array(ns), depth + 1)
  {
    forall rest: string
      ensures Value("[" + s + "]" + rest, depth + 1) == Got(Array(ns), rest)
    {
      Enclosed("[", s, "]", rest);
      ValueIsArray("[" + s + "]" + rest, SkipSpace(s + ("]" + rest)), ns, rest, depth);
    }
  }

  lemma ValueIsArray(s: string, inner: string, ns: seq<Json>, rest: string, depth: nat)
    requires StartsWith(s, '[') && SkipSpace(s[1..]) == inner
    requires !StartsWith(inner, ']') && Items(inner, depth) == Got(ns, rest)
    ensures Value(s, depth + 1) == Got(Array(ns), rest)
  {
  }

  lemma EmptyArrayReadsAs(s: string, depth: nat)
    requires IsSpaces(s)
    ensures ReadsAs("[" + s + "]", Array([]), depth + 1)
  {
    forall rest: string
      ensures Value("[" + s + "]" + rest, depth + 1) == Got(Array([]), rest)
    {
      assert ("[" + s + "]" + rest)[1..] == s + ("]" + rest);
      SkipsSpaces(s, "]" + rest);
      assert ("]" + rest)[1..] == rest;
    }
  }

  // Objects.

  /** q is key's text. */
  ghost predicate QuotedAs(q: string, key: string) {
    StartsWith(q, '"') && forall rest :: ScanString(q[1..] + rest) == Got(key, rest)
  }

  lemma QuoteReads(q: string, key: string)
    requires IsBetween(q, '"', '"') && IsChars(Inside(q), key)
    ensures QuotedAs(q, key)
  {
    forall rest: string
      ensures ScanString(q[1..] + rest) == Got(key, rest)
    {
      CharsAreRead(Inside(q), key, rest);
      InsideOf(q, '"', '"', rest);
    }
  }

  /** Key, colon and value with their spaces. */
  lemma MemberHead(x: MemberParts, key: string, rest: string)
    requires QuotedAs(x.q, key) && IsSpaces(x.b) && IsSpaces(x.c) && Opens(x.v)
    ensures var value := x.v + rest;
            && StartsWith(x.Text(rest), '"') && ScanString(x.Text(rest)[1..]) == Got(key, x.b + (":" + (x.c + value)))
            && SkipSpace(x.b + (":" + (x.c + value))) == ":" + (x.c + value)
            && SkipSpace((":" + (x.c + value))[1..]) == value
  {
    var value := x.v + rest;
    assert value[0] == x.v[0];
    var colon := x.b + (":" + (x.c + value));
    assert (x.q + colon)[1..] == x.q[1..] + colon;
    SkipsSpaces(x.b, ":" + (x.c + value));
    assert (":" + (x.c + value))[1..] == x.c + value;
    SkipsSpaces(x.c, value);
  }

  lemma MemberIsRead(x: MemberParts, key: string, n: Json, rest: string, depth: nat)
    requires QuotedAs(x.q, key) && IsSpaces(x.b) && IsSpaces(x.c) && ReadsAs(x.v, n, depth) && EndsNumber(rest)
    ensures OneMember(x.Text(rest), depth) == Got(Member(key, n), rest)
  {
    MemberHead(x, key, rest);
  }

  lemma MembersEnd(s: string, m: Member, d: string, rest: string, depth: nat)
    requires OneMember(s, depth) == Got(m, d + ("}" + rest)) && IsSpaces(d)
    ensures Members(s, depth) == Got([m], rest)
  {
    SkipsSpaces(d, "}" + rest);
    assert ("}" + rest)[1..] == rest;
  }

  lemma MembersGoOn(s: string, m: Member, d: string, next: string, ms: seq<Member>, rest: string, depth: nat)
    requires OneMember(s, depth) == Got(m, d + ("," + next)) && IsSpaces(d)
    requires Members(SkipSpace(next), depth) == Got(ms, rest)
    ensures Members(s, depth) == Got([m] + ms, rest)
  {
    SkipsSpaces(d, "," + next);
    assert ("," + next)[1..] == next;
  }

  lemma MemberSpacesSkipped(a: string, x: MemberParts, rest: string)
    requires IsSpaces(a) && StartsWith(x.q, '"')
    ensures SkipSpace(a + x.Text(rest)) == x.Text(rest) && StartsWith(x.Text(rest), '"')
  {
    SkipsSpaces(a, x.Text(rest));
  }

  lemma MemberRegroup(a: string, x: MemberParts, d: string, rest: string)
    ensures a + x.Text(d) + rest == a + x.Text(d + rest)
  {
    TextRegroup(x, d, rest);
  }

  lemma TextRegroup(x: MemberParts, d: string, rest: string)
    ensures x.Text(d) + rest == x.Text(d + rest)
  {
  }

  lemma OneMemberReads(a: string, x: MemberParts, key: string, n: Json, d: string, depth: nat)
    requires IsSpaces(a) && IsSpaces(x.b) && IsSpaces(x.c) && IsSpaces(d)
    requires QuotedAs(x.q, key) && ReadsAs(x.v, n, depth)
    ensures MembersReadAs(a + x.Text(d), [Member(key, n)], depth)
  {
    forall rest: string
      ensures var inner := SkipSpace(a + x.Text(d) + ("}" + rest));
              !StartsWith(inner, '}') && Members(inner, depth) == Got([Member(key, n)], rest)
    {
      SpacesEndNumber(d, "}" + rest);
      MemberRegroup(a, x, d, "}" + rest);
      MemberSpacesSkipped(a, x, d + ("}" + rest));
      MemberIsRead(x, key, n, d + ("}" + rest), depth);
      MembersEnd(x.Text(d + ("}" + rest)), Member(key, n), d, rest, depth);
    }
  }

  lemma MemberBeforeReads(
      a: string, x: MemberParts, key: string, n: Json, d: string, u: string, ms: seq<Member>, depth: nat)
    requires IsSpaces(a) && IsSpaces(x.b) && IsSpaces(x.c) && IsSpaces(d)
    requires QuotedAs(x.q, key) && ReadsAs(x.v, n, depth)
    requires MembersReadAs(u, ms, depth)
    ensures MembersReadAs(a + x.Text(d + ("," + u)), [Member(key, n)] + ms, depth)
  {
    forall rest: string
      ensures var inner := SkipSpace(a + x.Text(d + ("," + u)) + ("}" + rest));
              !StartsWith(inner, '}') && Members(inner, depth) == Got([Member(key, n)] + ms, rest)
    {
      var next := u + ("}" + rest);
      SpacesEndNumber(d, "," + next);
      MemberRegroup(a, x, d + ("," + u), "}" + rest);
      CommaRegroup(d, u, "}" + rest);
      MemberSpacesSkipped(a, x, d + ("," + next));
      MemberIsRead(x, key, n, d + ("," + next), depth);
      MembersGoOn(x.Text(d + ("," + next)), Member(key, n), d, next, ms, rest, depth);
    }
  }

  lemma CommaRegroup(s: string, u: string, rest: string)
    ensures s + ("," + u) + rest == s + ("," + (u + rest))
  {
  }

  lemma ValueIsObject(s: string, inner: string, ms: seq<Member>, rest: string, depth: nat)
    requires StartsWith(s, '{') && SkipSpace(s[1..]) == inner
    requires !StartsWith(inner, '}') && Members(inner, depth) == Got(ms, rest)
    ensures Value(s, depth + 1) == Got(Object(LastWins(ms)), rest)
  {
  }

  lemma ObjectReadsAs(s: string, ms: seq<Member>, depth: nat)
    requires MembersReadAs(s, ms, depth)
    ensures ReadsAs("{" + s + "}", Object(LastWins(ms)), depth + 1)
  {
    forall rest: string
      ensures Value("{" + s + "}" + rest, depth + 1) == Got(Object(LastWins(ms)), rest)
    {
      Enclosed("{", s, "}", rest);
      ValueIsObject("{" + s + "}" + rest, SkipSpace(s + ("}" + rest)), ms, rest, depth);
    }
  }

  lemma Enclosed(open: string, s: string, close: string, rest: string)
    requires |open| == 1
    ensures StartsWith(open + s + close + rest, open[0]) && (open + s + close + rest)[1..] == s + (close + rest)
  {
  }

  lemma EmptyObjectReadsAs(s: string, depth: nat)
    requires IsSpaces(s)
    ensures ReadsAs("{" + s + "}", Object(map[]), depth + 1)
  {
    forall rest: string
      ensures Value("{" + s + "}" + rest, depth + 1) == Got(Object(map[]), rest)
    {
      assert ("{" + s + "}" + rest)[1..] == s + ("}" + rest);
      SkipsSpaces(s, "}" + rest);
      assert ("}" + rest)[1..] == rest;
    }
  }

  lemma OpenInsideClose(t: string, open: char, close: char)
    requires IsBetween(t, open, close)
    ensures t == [open] + Inside(t) + [close]
  {
  }

  lemma LastWinsSnoc(ms: seq<Member>)
    requires ms != []
    ensures var init, last := ms[..|ms| - 1], ms[|ms| - 1];
            ms == init + [last] && LastWins(ms) == LastWins(init)[last.key := last.value]
  {
  }

  lemma {:induction false} LastWinsHoldsLast(ms: seq<Member>)
    ensures HoldsLast(LastWins(ms), ms)
    decreases |ms|
  {
    if ms != [] {
      var init, last := ms[..|ms| - 1], ms[|ms| - 1];
      LastWinsHoldsLast(init);
      OneMoreHeld(LastWins(init), init, last);
      LastWinsSnoc(ms);
    }
  }

  lemma OneMoreHeld(m: map<string, Json>, init: seq<Member>, last: Member)
    requires HoldsLast(m, init)
    ensures HoldsLast(m[last.key := last.value], init + [last])
  {
    var ms, n := init + [last], |init|;
    assert ms[n] == last && forall i :: 0 <= i < n ==> ms[i] == init[i];
    forall k | k in m[last.key := last.value]
      ensures HasKey(ms, k)
    {
      if k == last.key {
        assert ms[n].key == k;
      } else {
        var i :| 0 <= i < |init| && init[i].key == k;
        assert ms[i].key == k;
      }
    }
    forall i | 0 <= i < |ms| && IsLast(ms, i)
      ensures m[last.key := last.value][ms[i].key] == ms[i].value
    {
      if i < n {
        assert ms[n].key != ms[i].key;
        assert forall j :: i < j < n ==> ms[j].key != ms[i].key;
        assert IsLast(init, i);
      }
    }
  }

  /** From every member on there is a last one of its key. */
  lemma {:induction false} LastOfKey(ms: seq<Member>, i: nat) returns (l: nat)
    requires i < |ms|
    ensures i <= l < |ms| && ms[l].key == ms[i].key && IsLast(ms, l)
    decreases |ms| - i
  {
    if IsLast(ms, i) {
      l := i;
    } else {
      var j :| i < j < |ms| && ms[j].key == ms[i].key;
      l := LastOfKey(ms, j);
    }
  }

  lemma HeldIsOne(m: map<string, Json>, n: map<string, Json>, ms: seq<Member>)
    requires HoldsLast(m, ms) && HoldsLast(n, ms)
    ensures m == n
  {
    forall k | k in m
      ensures k in n && m[k] == n[k]
    {
      assert HasKey(ms, k);
      var i :| 0 <= i < |ms| && ms[i].key == k;
      var l := LastOfKey(ms, i);
    }
    forall k | k in n
      ensures k in m
    {
      assert HasKey(ms, k);
      var i :| 0 <= i < |ms| && ms[i].key == k;
    }
    assert m.Keys == n.Keys;
  }

  /** The reader's map of members is the one that holds the last value of each key. */
  lemma LastWinsExactly(m: map<string, Json>, ms: seq<Member>)
    ensures HoldsLast(m, ms) <==> m == LastWins(ms)
  {
    LastWinsHoldsLast(ms);
    if HoldsLast(m, ms) {
      HeldIsOne(m, LastWins(ms), ms);
    }
  }

  /** Every text of a tree is read as that tree, whatever follows that cannot belong to it. */
  lemma {:induction false} TextIsRead(t: string, n: Json, depth: nat)
    requires IsValue(t, n, depth)
    ensures ReadsAs(t, n, depth)
    decreases |t|, 0
  {
    match n
    case Null => NameReadsAs(t, depth);
    case Bool(b) => NameReadsAs(t, depth);
    case Number(literal) =>
      JsonNumbers.NumberExactly(literal);
      LiteralReadsAs(t, depth);
    case String(text) => StringReadsAs(t, text, depth);
    case Array(items) => ArrayTextIsRead(t, items, depth);
    case Object(members) => ObjectTextIsRead(t, members, depth);
  }

  lemma {:induction false} ArrayTextIsRead(t: string, items: seq<Json>, depth: nat)
    requires IsValue(t, Array(items), depth)
    ensures ReadsAs(t, Array(items), depth)
    decreases |t|, 0, 0
  {
    OpenInsideClose(t, '[', ']');
    if items == [] {
      EmptyArrayReadsAs(Inside(t), depth - 1);
    } else {
      ItemsAreRead(Inside(t), items, depth - 1);
      ArrayReadsAs(Inside(t), items, depth - 1);
    }
  }

  lemma {:induction false} ObjectTextIsRead(t: string, members: map<string, Json>, depth: nat)
    requires IsValue(t, Object(members), depth)
    ensures ReadsAs(t, Object(members), depth)
    decreases |t|, 0, 0
  {
    OpenInsideClose(t, '{', '}');
    if members == map[] && IsSpaces(Inside(t)) {
      EmptyObjectReadsAs(Inside(t), depth - 1);
    } else {
      var ms :| ms != [] && HoldsLast(members, ms) && IsMembers(Inside(t), ms, depth - 1);
      FilledObjectIsRead(t, members, ms, depth - 1);
    }
  }

  lemma {:induction false} FilledObjectIsRead(t: string, members: map<string, Json>, ms: seq<Member>, depth: nat)
    requires IsBetween(t, '{', '}') && HoldsLast(members, ms) && IsMembers(Inside(t), ms, depth)
    ensures ReadsAs(t, Object(members), depth + 1)
    decreases |Inside(t)|, 2
  {
    OpenInsideClose(t, '{', '}');
    LastWinsExactly(members, ms);
    MembersAreRead(Inside(t), ms, depth);
    ObjectReadsAs(Inside(t), ms, depth);
  }

  lemma {:induction false} ItemsAreRead(t: string, ns: seq<Json>, depth: nat)
    requires IsItems(t, ns, depth)
    ensures ItemsReadAs(t, ns, depth)
    decreases |t|, 1
  {
    var a, v, b, u :| IsItem(t, ns, depth, a, v, b, u);
    TextIsRead(v, ns[0], depth);
    if |ns| == 1 {
      OneItemReads(a, v, b, ns[0], depth);
      assert ns == [ns[0]];
    } else {
      ItemsAreRead(u, ns[1..], depth);
      ItemBeforeReads(a, v, b, ns[0], u, ns[1..], depth);
      assert ns == [ns[0]] + ns[1..];
    }
  }

  lemma {:induction false} MembersAreRead(t: string, ms: seq<Member>, depth: nat)
    requires IsMembers(t, ms, depth)
    ensures MembersReadAs(t, ms, depth)
    decreases |t|, 1
  {
    var a, x, d, u :| IsMember(t, ms, depth, a, x, d, u);
    TextIsRead(x.v, ms[0].value, depth);
    QuoteReads(x.q, ms[0].key);
    if |ms| == 1 {
      OneMemberReads(a, x, ms[0].key, ms[0].value, d, depth);
      assert ms == [Member(ms[0].key, ms[0].value)];
    } else {
      MembersAreRead(u, ms[1..], depth);
      MemberBeforeReads(a, x, ms[0].key, ms[0].value, d, u, ms[1..], depth);
      assert ms == [Member(ms[0].key, ms[0].value)] + ms[1..];
    }
  }
}
