/** wirevalue.go itself: the reader fills slices in loops, the writer appends to one buffer and sorts a
    copy of a map's entries in place. Each method is proved against WireJson. */
module Codec {
  import opened Bytes
  import opened Canonical
  import opened Denotation
  import opened JsonReader
  import opened JsonText
  import opened WireJson
  import opened WireValue
  import opened Wrappers
  import Base64
  import Decimal

  // ---------------------------------------------------------------- reading

  /** e is an error `FromJSON(text)` may return. */
  ghost predicate FailsWith(h: Host, text: string, e: Error) {
    Parse(text) == Err(e) || (Parse(text).Ok? && Refuses(h, Parse(text).value, e))
  }

  method FromJson(h: Host, text: string) returns (r: Result<Value, Error>)
    ensures r.Ok? <==> Accepts(h, text)
    ensures r.Ok? ==> Reads(h, text, r.value)
    ensures r.Err? ==> FailsWith(h, text, r.error)
  {
    var first := Decode(text);
    if first.Fail? {
      return Err(NotOneValue);
    }
    if SkipSpace(first.rest) != "" {
      return Err(MoreFollows);
    }
    r := FromAny(h, first.value);
    if r.Ok? {
      DenotedIsAdmitted(h, first.value, r.value);
    } else {
      RefusedIsNotAdmitted(h, first.value, r.error);
    }
  }

  method FromAny(h: Host, n: Json) returns (r: Result<Value, Error>)
    ensures r.Ok? ==> Denotes(h, n, r.value)
    ensures r.Err? ==> Refuses(h, n, r.error)
    decreases n, 1, 0
  {
    match n
    case Null => r := Ok(Value.Null);
    case Bool(_) => r := Err(Boolean);
    case String(t) => r := Ok(Text(t));
    case Number(literal) => r := NumberValue(h, literal);
    case Array(items) => r := FromList(h, items);
    case Object(members) => r := FromMap(h, members);
  }

  method FromList(h: Host, items: seq<Json>) returns (r: Result<Value, Error>)
    ensures r.Ok? ==> Denotes(h, Array(items), r.value)
    ensures r.Err? ==> Refuses(h, Array(items), r.error)
    decreases items, 2, 0
  {
    var values := new Value[|items|](_ => Value.Null);
    for i := 0 to |items|
      invariant forall j :: 0 <= j < i ==> Denotes(h, items[j], values[j])
    {
      var value := FromAny(h, items[i]);
      if value.Err? {
        forall j | 0 <= j < i
          ensures Admits(h, items[j])
        {
          DenotedIsAdmitted(h, items[j], values[j]);
        }
        return Err(value.error);
      }
      values[i] := value.value;
    }
    r := Ok(List(values[..]));
  }

  /** The members come in whatever order the map hands them out. */
  method FromMap(h: Host, members: map<string, Json>) returns (r: Result<Value, Error>)
    ensures r.Ok? ==> Denotes(h, Object(members), r.value)
    ensures r.Err? ==> Refuses(h, Object(members), r.error)
    decreases Object(members), 0, 0
  {
    if BYTES_KEY in members && |members| == 1 {
      SubsetOfSameSize({BYTES_KEY}, members.Keys);
      return MarkedBytes(members[BYTES_KEY]);
    }
    var entries: seq<Entry> := [];
    var left := members.Keys;
    while left != {}
      invariant left <= members.Keys && |entries| + |left| == |members.Keys|
      invariant DistinctKeys(entries)
      invariant forall i :: 0 <= i < |entries| ==>
                  && entries[i].key.Text?
                  && entries[i].key.text in members.Keys - left
                  && Denotes(h, members[entries[i].key.text], entries[i].val)
      decreases |left|
    {
      var k :| k in left;
      assert members[k] < Object(members);
      var value := FromAny(h, members[k]);
      if value.Err? {
        assert !IsMarked(members);
        return Err(value.error);
      }
      entries := entries + [Entry(Text(k), value.value)];
      left := left - {k};
    }
    r := Ok(Map(entries));
  }

  // ---------------------------------------------------------------- writing

  class Buffer {
    var text: string

    constructor ()
      ensures text == ""
    {
      text := "";
    }

    method WriteString(s: string)
      modifies this
      ensures text == old(text) + s
    {
      text := text + s;
    }
  }

  /** In no map at any depth do two keys encode the same. Among such the order of entries is not
      settled, as sort.Slice keeps no order among equals. */
  ghost predicate WellKeyed(v: Value) {
    match v
    case List(items) => forall i :: 0 <= i < |items| ==> WellKeyed(items[i])
    case Map(entries) => Apart(CanonEntries(entries)) && forall i :: 0 <= i < |entries| ==> WellKeyed(entries[i].val)
    case _ => true
  }

  /** Texts with commas between them. */
  function Joined(ts: seq<string>): (s: string) {
    if ts == [] then "" else if |ts| == 1 then ts[0] else ts[0] + "," + Joined(ts[1..])
  }

  /** The members' texts, for values whose texts are ts. */
  function MemberTexts(h: Host, es: seq<Entry>, ts: seq<string>): (ms: seq<string>)
    requires |es| == |ts|
    ensures |ms| == |es| && forall i :: 0 <= i < |es| ==> ms[i] == Quote(KeyText(h, es[i].key)) + ":" + ts[i]
  {
    seq(|es|, i requires 0 <= i < |es| => Quote(KeyText(h, es[i].key)) + ":" + ts[i])
  }

  /** text is one `write` may append for v: sort.Slice leaves entries whose keys encode the same in any
      order. */
  ghost predicate Prints(h: Host, v: Value, text: string)
    decreases v, 0
  {
    match v
    case List(items) => exists ts :: EachPrints(h, items, ts) && text == "[" + Joined(ts) + "]"
    case Map(entries) =>
      exists es, ts :: MembersPrint(h, entries, es, ts) && text == "{" + Joined(MemberTexts(h, es, ts)) + "}"
    case _ => text == PrintAsIs(h, v)
  }

  /** Each item prints as its text. */
  ghost predicate EachPrints(h: Host, items: seq<Value>, ts: seq<string>)
    decreases items, 1
  {
    |ts| == |items| && forall i :: 0 <= i < |items| ==> Prints(h, items[i], ts[i])
  }

  /** es are the entries sorted, and each one's value prints as its text. */
  ghost predicate MembersPrint(h: Host, entries: seq<Entry>, es: seq<Entry>, ts: seq<string>)
    decreases entries, 1
  {
    && multiset(es) == multiset(entries) && KeySorted(es)
    && |ts| == |es|
    && forall i :: 0 <= i < |es| ==> es[i] in entries && (assert es[i].val < es[i]; Prints(h, es[i].val, ts[i]))
  }

  /** `ToJSON`; where the order of entries is settled, exactly one text. */
  method ToJson(h: Host, v: Value) returns (text: string)
    ensures Prints(h, v, text)
    ensures WellKeyed(v) ==> text == Print(h, v)
  {
    var buf := new Buffer();
    Write(h, buf, v);
    text := buf.text;
    assert text[0..] == text;
    if WellKeyed(v) {
      PrintsOnlyOne(h, v, text);
    }
  }

  /** after is before and a text of v behind it. */
  ghost predicate Adds(h: Host, before: string, after: string, v: Value) {
    before <= after && Prints(h, v, after[|before|..])
  }

  lemma TextAdded(h: Host, before: string, after: string, v: Value) returns (t: string)
    requires Adds(h, before, after, v)
    ensures after == before + t && Prints(h, v, t)
  {
    t := after[|before|..];
  }

  lemma AddedText(h: Host, before: string, text: string, v: Value)
    requires Prints(h, v, text)
    ensures Adds(h, before, before + text, v)
  {
    assert (before + text)[|before|..] == text;
  }

  method Write(h: Host, buf: Buffer, v: Value)
    modifies buf
    ensures Adds(h, old(buf.text), buf.text, v)
    decreases v, 0, 0
  {
    match v
    case Null => WriteScalar(h, buf, v, "null");
    case Int(i) => WriteScalar(h, buf, v, Decimal.PrintInt(i));
    case Float(f) => WriteFloat(h, buf, f);
    case Text(t) => WriteScalar(h, buf, v, Quote(t));
    case Blob(b) => WriteScalar(h, buf, v, "{\"$bytes\":\"" + Base64.Encode(b) + "\"}");
    case List(items) => WriteList(h, buf, items);
    case Map(entries) => WriteMap(h, buf, entries);
    case Other(encoded) => WriteScalar(h, buf, v, Quote(h.diagnostic(encoded)));
  }

  method WriteScalar(h: Host, buf: Buffer, ghost v: Value, text: string)
    requires Prints(h, v, text)
    modifies buf
    ensures Adds(h, old(buf.text), buf.text, v)
  {
    AddedText(h, buf.text, text, v);
    buf.WriteString(text);
  }

  method WriteFloat(h: Host, buf: Buffer, f: Bits)
    modifies buf
    ensures buf.text == old(buf.text) + FloatText(h, f) && Adds(h, old(buf.text), buf.text, Float(f))
  {
    var text := h.formatFloat(f);
    if !ContainsAny(text, ".eEn") {
      text := text + ".0";
    }
    AddedText(h, buf.text, text, Float(f));
    buf.WriteString(text);
  }

  /** One more text behind those joined. */
  lemma {:induction false} JoinedSnoc(ts: seq<string>, t: string)
    ensures Joined(ts + [t]) == Joined(ts) + (if ts == [] then "" else ",") + t
  {
    if ts != [] {
      assert (ts + [t])[1..] == ts[1..] + [t];
      JoinedSnoc(ts[1..], t);
    }
  }

  /** What comes behind a comma, if there is one. */
  function Separator(i: nat): (s: string) {
    if i > 0 then "," else ""
  }

  lemma Regroup(a: string, b: string, c: string, d: string)
    ensures a + b + c + d == a + (b + c + d)
  {
  }

  lemma OneMoreJoined(before: string, ts: seq<string>, t: string)
    ensures before + Joined(ts) + Separator(|ts|) + t == before + Joined(ts + [t])
  {
    JoinedSnoc(ts, t);
    Regroup(before, Joined(ts), Separator(|ts|), t);
  }

  method WriteList(h: Host, buf: Buffer, items: seq<Value>)
    modifies buf
    ensures Adds(h, old(buf.text), buf.text, List(items))
    decreases items, 2, 0
  {
    ghost var before, ts: seq<string> := buf.text, [];
    buf.WriteString("[");
    for i := 0 to |items|
      invariant |ts| == i && forall j :: 0 <= j < i ==> Prints(h, items[j], ts[j])
      invariant buf.text == before + "[" + Joined(ts)
    {
      ghost var here := buf.text + Separator(i);
      WriteItem(h, buf, items[i], i);
      ghost var t := TextAdded(h, here, buf.text, items[i]);
      OneMoreJoined(before + "[", ts, t);
      ts := ts + [t];
    }
    assert EachPrints(h, items, ts);
    buf.WriteString("]");
    Regroup(before, "[", Joined(ts), "]");
    AddedText(h, before, "[" + Joined(ts) + "]", List(items));
  }

  /** The i-th item of a list with the comma before it. */
  method WriteItem(h: Host, buf: Buffer, item: Value, i: nat)
    modifies buf
    ensures Adds(h, old(buf.text) + Separator(i), buf.text, item)
    decreases item, 1, 0
  {
    if i > 0 {
      buf.WriteString(",");
    }
    assert buf.text == old(buf.text) + Separator(i);
    Write(h, buf, item);
  }

  predicate KeyBefore(a: Entry, b: Entry) {
    Less(Encode(a.key), Encode(b.key))
  }

  ghost predicate KeySorted(s: seq<Entry>) {
    forall i, j :: 0 <= i < j < |s| ==> !KeyBefore(s[j], s[i])
  }

  lemma CopyIsStrict(s: seq<Entry>, entries: seq<Entry>)
    requires multiset(s) == multiset(entries) && KeySorted(s) && Apart(CanonEntries(entries))
    ensures StrictlySorted(CanonEntries(s))
  {
    var cs := CanonEntries(s);
    forall i, j | 0 <= i < j < |cs|
      ensures Before(cs[i], cs[j])
    {
      ApartInCopy(s, entries, i, j);
      assert !KeyBefore(s[j], s[i]);
      LessTotal(EncodeAsIs(cs[i].key), EncodeAsIs(cs[j].key));
    }
  }

  lemma CanonIsStrict(entries: seq<Entry>)
    requires Apart(CanonEntries(entries))
    ensures StrictlySorted(Sort(CanonEntries(entries)))
  {
    SortSorted(CanonEntries(entries));
    ApartPermuted(CanonEntries(entries), Sort(CanonEntries(entries)));
    StrictWhenApart(Sort(CanonEntries(entries)));
  }

  lemma CopyHasSameEntries(s: seq<Entry>, entries: seq<Entry>)
    requires multiset(s) == multiset(entries)
    ensures SameElements(CanonEntries(s), Sort(CanonEntries(entries)))
  {
    var cs, sorted := CanonEntries(s), Sort(CanonEntries(entries));
    forall e | e in cs
      ensures e in sorted
    {
      var i :| 0 <= i < |cs| && cs[i] == e;
      assert s[i] in multiset(s);
      var p := Occurrence(entries, s[i]);
      CanonEntryThere(entries, p);
    }
    forall e | e in sorted
      ensures e in cs
    {
      var p := CanonEntryFrom(entries, e);
      assert entries[p] in multiset(entries);
      var i := Occurrence(s, entries[p]);
      assert cs[i] == e;
    }
  }

  /** Sorted entries in canonical form are the canonical form's entries. */
  lemma SortedCopyIsCanonical(s: seq<Entry>, entries: seq<Entry>)
    requires multiset(s) == multiset(entries) && KeySorted(s) && Apart(CanonEntries(entries))
    ensures CanonEntries(s) == Sort(CanonEntries(entries))
  {
    CopyIsStrict(s, entries);
    CanonIsStrict(entries);
    CopyHasSameEntries(s, entries);
    SortedIsUnique(CanonEntries(s), Sort(CanonEntries(entries)));
  }

  lemma ApartInCopy(s: seq<Entry>, entries: seq<Entry>, i: nat, j: nat)
    requires multiset(s) == multiset(entries) && Apart(CanonEntries(entries)) && i < j < |s|
    ensures EncodeAsIs(CanonEntry(s[i]).key) != EncodeAsIs(CanonEntry(s[j]).key)
  {
    var all := CanonEntries(entries);
    var p, q;
    if s[i] == s[j] {
      AtLeastTwice(s, i, j);
      p, q := TwoOccurrences(entries, s[i]);
    } else {
      assert s[i] in multiset(s) && s[j] in multiset(s);
      p := Occurrence(entries, s[i]);
      q := Occurrence(entries, s[j]);
    }
    assert all[p] == CanonEntry(s[i]) && all[q] == CanonEntry(s[j]);
  }

  /** `sort.Slice` by canonical key bytes: the same entries, none behind one its key comes before. */
  method SortByKey(a: array<Entry>)
    modifies a
    ensures multiset(a[..]) == old(multiset(a[..]))
    ensures KeySorted(a[..])
  {
    for i := 0 to a.Length
      invariant multiset(a[..]) == old(multiset(a[..]))
      invariant KeySorted(a[..i])
    {
      SiftDown(a, i);
    }
    assert a[..a.Length] == a[..];
  }

  /** The entry behind i sorted ones is swapped down to its place among them. */
  method SiftDown(a: array<Entry>, i: nat)
    requires i < a.Length && KeySorted(a[..i])
    modifies a
    ensures multiset(a[..]) == old(multiset(a[..]))
    ensures KeySorted(a[..i + 1])
  {
    var j := i;
    assert forall k :: 0 <= k < i ==> a[..i + 1][k] == a[..i][k];
    while j > 0 && KeyBefore(a[j], a[j - 1])
      invariant 0 <= j <= i
      invariant multiset(a[..]) == old(multiset(a[..]))
      invariant SortedBut(a[..i + 1], j)
    {
      SwapDown(a[..i + 1], j);
      ghost var was := a[..i + 1];
      SwapKeepsEntries(a, j - 1, j);
      assert a[..i + 1] == was[j - 1 := was[j]][j := was[j - 1]];
      j := j - 1;
    }
    SortedAgain(a[..i + 1], j);
  }

  method SwapKeepsEntries(a: array<Entry>, i: nat, j: nat)
    requires i < j < a.Length
    modifies a
    ensures a[..] == old(a[..])[i := old(a[j])][j := old(a[i])]
    ensures multiset(a[..]) == old(multiset(a[..]))
  {
    a[i], a[j] := a[j], a[i];
  }

  /** Sorted but for the entry at j, which comes before none of those behind it... */
  ghost predicate SortedBut(s: seq<Entry>, j: nat) {
    && j < |s|
    && (forall p, q :: 0 <= p < q < |s| && p != j && q != j ==> !KeyBefore(s[q], s[p]))
    && (forall q :: j < q < |s| ==> !KeyBefore(s[q], s[j]))
  }

  lemma SwapDown(s: seq<Entry>, j: nat)
    requires 0 < j && SortedBut(s, j) && KeyBefore(s[j], s[j - 1])
    ensures SortedBut(s[j - 1 := s[j]][j := s[j - 1]], j - 1)
  {
    LessAsymmetric(Encode(s[j].key), Encode(s[j - 1].key));
  }

  lemma KeyNotBeforeTransitive(a: Entry, b: Entry, c: Entry)
    requires !KeyBefore(b, a) && !KeyBefore(c, b)
    ensures !KeyBefore(c, a)
  {
    NotBeforeTransitive(CanonEntry(a), CanonEntry(b), CanonEntry(c));
  }

  lemma SortedAgain(s: seq<Entry>, j: nat)
    requires SortedBut(s, j) && (j == 0 || !KeyBefore(s[j], s[j - 1]))
    ensures KeySorted(s)
  {
    forall p | 0 <= p < j
      ensures !KeyBefore(s[j], s[p])
    {
      if p < j - 1 {
        KeyNotBeforeTransitive(s[p], s[j - 1], s[j]);
      }
    }
  }

  /** A key prints as its canonical form does. */
  lemma KeyTextOfCanon(h: Host, key: Value)
    ensures KeyText(h, Canon(key)) == KeyText(h, key)
  {
    CanonIdempotent(key);
  }

  /** The copy writeMap sorts; the value's own entries stay as they are. */
  method SortedCopy(entries: seq<Entry>) returns (copy: array<Entry>)
    ensures fresh(copy) && multiset(copy[..]) == multiset(entries) && KeySorted(copy[..])
  {
    copy := new Entry[|entries|](i requires 0 <= i < |entries| => entries[i]);
    assert copy[..] == entries;
    SortByKey(copy);
  }

  lemma CopyIsAmong(copy: seq<Entry>, entries: seq<Entry>)
    requires multiset(copy) == multiset(entries)
    ensures forall i :: 0 <= i < |copy| ==> copy[i] in entries
  {
    forall i | 0 <= i < |copy|
      ensures copy[i] in entries
    {
      assert copy[i] in multiset(copy);
    }
  }

  method WriteMap(h: Host, buf: Buffer, entries: seq<Entry>)
    modifies buf
    ensures Adds(h, old(buf.text), buf.text, Map(entries))
    decreases entries, 3, 0
  {
    ghost var before := buf.text;
    var copy := SortedCopy(entries);
    ghost var es := copy[..];
    CopyIsAmong(es, entries);
    buf.WriteString("{");
    ghost var ts := WriteEntries(h, buf, copy, entries);
    assert MembersPrint(h, entries, es, ts);
    buf.WriteString("}");
    Regroup(before, "{", Joined(MemberTexts(h, es, ts)), "}");
    AddedText(h, before, "{" + Joined(MemberTexts(h, es, ts)) + "}", Map(entries));
  }

  lemma OneMoreMember(h: Host, es: seq<Entry>, ts: seq<string>, e: Entry, t: string)
    requires |es| == |ts|
    ensures MemberTexts(h, es + [e], ts + [t]) == MemberTexts(h, es, ts) + [Quote(KeyText(h, e.key)) + ":" + t]
  {
  }

  /** The loop of writeMap over the sorted copy of entries. */
  method WriteEntries(h: Host, buf: Buffer, copy: array<Entry>, ghost entries: seq<Entry>)
    returns (ghost ts: seq<string>)
    requires forall i :: 0 <= i < copy.Length ==> copy[..][i] in entries
    modifies buf
    ensures |ts| == copy.Length && forall i :: 0 <= i < copy.Length ==> Prints(h, copy[i].val, ts[i])
    ensures buf.text == old(buf.text) + Joined(MemberTexts(h, copy[..], ts))
    decreases entries, 2, 0
  {
    ghost var before, es := buf.text, copy[..];
    ts := [];
    for i := 0 to copy.Length
      invariant |ts| == i && forall j :: 0 <= j < i ==> Prints(h, es[j].val, ts[j])
      invariant buf.text == before + Joined(MemberTexts(h, es[..i], ts))
    {
      assert es[i] in entries;
      ghost var t := WriteEntry(h, buf, copy[i], i);
      OneMoreMember(h, es[..i], ts, es[i], t);
      assert es[..i + 1] == es[..i] + [es[i]];
      OneMoreJoined(before, MemberTexts(h, es[..i], ts), Quote(KeyText(h, es[i].key)) + ":" + t);
      ts := ts + [t];
    }
    assert es[..copy.Length] == es;
  }

  /** The i-th entry of a map with the comma before it. */
  method WriteEntry(h: Host, buf: Buffer, e: Entry, i: nat) returns (ghost t: string)
    modifies buf
    ensures Prints(h, e.val, t)
    ensures buf.text == old(buf.text) + Separator(i) + (Quote(KeyText(h, e.key)) + ":" + t)
    decreases e, 1, 0
  {
    if i > 0 {
      buf.WriteString(",");
    }
    ghost var before := buf.text;
    WriteMapKey(h, buf, e.key);
    buf.WriteString(":");
    ghost var here := buf.text;
    Write(h, buf, e.val);
    t := TextAdded(h, here, buf.text, e.val);
    Regroup(before, Quote(KeyText(h, e.key)), ":", t);
  }

  method WriteMapKey(h: Host, buf: Buffer, key: Value)
    modifies buf
    ensures buf.text == old(buf.text) + Quote(KeyText(h, key))
  {
    var text := if key.Text? then key.text else h.diagnostic(Encode(key));
    buf.WriteString(Quote(text));
  }

  // ---------------------------------------------------------------- one value, one text

  lemma {:induction false} JoinedItems(h: Host, cs: seq<Value>, ts: seq<string>)
    requires |cs| == |ts| && forall i :: 0 <= i < |cs| ==> ts[i] == PrintAsIs(h, cs[i])
    ensures Joined(ts) == PrintItems(h, cs)
  {
    if |cs| > 1 {
      JoinedItems(h, cs[1..], ts[1..]);
    }
  }

  lemma {:induction false} JoinedEntries(h: Host, cs: seq<Entry>, ms: seq<string>)
    requires |cs| == |ms| && forall i :: 0 <= i < |cs| ==> ms[i] == PrintEntry(h, cs[i])
    ensures Joined(ms) == PrintEntries(h, cs)
  {
    if |cs| > 1 {
      JoinedEntries(h, cs[1..], ms[1..]);
    }
  }

  lemma MemberPrintsCanon(h: Host, e: Entry)
    ensures Quote(KeyText(h, e.key)) + ":" + Print(h, e.val) == PrintEntry(h, CanonEntry(e))
  {
    KeyTextOfCanon(h, e.key);
  }

  lemma CopyPrintsCanon(h: Host, es: seq<Entry>, entries: seq<Entry>, ts: seq<string>)
    requires multiset(es) == multiset(entries) && KeySorted(es) && Apart(CanonEntries(entries))
    requires |ts| == |es| && forall i :: 0 <= i < |es| ==> ts[i] == Print(h, es[i].val)
    ensures Joined(MemberTexts(h, es, ts)) == PrintEntries(h, Sort(CanonEntries(entries)))
  {
    var ms := MemberTexts(h, es, ts);
    forall i | 0 <= i < |es|
      ensures ms[i] == PrintEntry(h, CanonEntries(es)[i])
    {
      MemberPrintsCanon(h, es[i]);
    }
    JoinedEntries(h, CanonEntries(es), ms);
    SortedCopyIsCanonical(es, entries);
  }

  /** Where no two keys of a map encode the same, only the canonical text can be written. */
  lemma {:induction false} PrintsOnlyOne(h: Host, v: Value, text: string)
    requires WellKeyed(v) && Prints(h, v, text)
    ensures text == Print(h, v)
    decreases v
  {
    match v
    case List(items) =>
      var ts :| EachPrints(h, items, ts) && text == "[" + Joined(ts) + "]";
      forall i | 0 <= i < |items|
        ensures ts[i] == PrintAsIs(h, CanonItems(items)[i])
      {
        PrintsOnlyOne(h, items[i], ts[i]);
      }
      JoinedItems(h, CanonItems(items), ts);
    case Map(entries) =>
      var es: seq<Entry>, ts: seq<string> :|
        MembersPrint(h, entries, es, ts) && text == "{" + Joined(MemberTexts(h, es, ts)) + "}";
      forall i | 0 <= i < |es|
        ensures ts[i] == Print(h, es[i].val)
      {
        assert es[i] in entries && es[i].val < Map(entries);
        PrintsOnlyOne(h, es[i].val, ts[i]);
      }
      CopyPrintsCanon(h, es, entries, ts);
    case _ =>
  }

  /** Payloads are well keyed, so ToJson prints them all. */
  lemma {:induction false} PayloadIsWellKeyed(v: Value)
    requires IsPayload(v)
    ensures WellKeyed(v)
    decreases v
  {
    match v
    case List(items) =>
      forall i | 0 <= i < |items|
        ensures WellKeyed(items[i])
      {
        PayloadIsWellKeyed(items[i]);
      }
    case Map(entries) =>
      forall i | 0 <= i < |entries|
        ensures WellKeyed(entries[i].val)
      {
        PayloadIsWellKeyed(entries[i].val);
      }
      DistinctTextKeysAreApart(entries);
      CanonTextKeysApart(entries);
    case _ =>
  }
}
