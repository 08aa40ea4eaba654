/** The contract of the JSON form of wire values, as wirevalue.go's package comment gives it. */
module CodecLaws {
  import opened Canonical
  import opened Denotation
  import opened JsonReader
  import opened JsonText
  import opened WireJson
  import opened WireValue
  import opened Wrappers
  import CborOrder
  import JsonSoundness
  import RoundTrip

  // ---------------------------------------------------------------- depth

  lemma {:induction false} NestsDeeper(v: Value, d: nat, e: nat)
    requires Nests(v, d) && d <= e
    ensures Nests(v, e)
    decreases v
  {
    match v
    case List(items) =>
      forall i | 0 <= i < |items|
        ensures Nests(items[i], e - 1)
      {
        NestsDeeper(items[i], d - 1, e - 1);
      }
    case Map(entries) =>
      forall i | 0 <= i < |entries|
        ensures Nests(entries[i].val, e - 1)
      {
        NestsDeeper(entries[i].val, d - 1, e - 1);
      }
    case _ =>
  }

  lemma {:induction false} SomeDepth(v: Value) returns (d: nat)
    ensures Nests(v, d)
    decreases v, 0
  {
    match v
    case List(items) =>
      d := SomeDepthOfAll(items);
      d := d + 1;
    case Map(entries) =>
      d := SomeDepthOfVals(entries);
      d := d + 1;
    case _ => d := 1;
  }

  lemma {:induction false} SomeDepthOfAll(items: seq<Value>) returns (d: nat)
    ensures forall i :: 0 <= i < |items| ==> Nests(items[i], d)
    decreases items, 1
  {
    d := 0;
    if items != [] {
      var a := SomeDepth(items[0]);
      var b := SomeDepthOfAll(items[1..]);
      d := if a < b then b else a;
      forall i | 0 <= i < |items|
        ensures Nests(items[i], d)
      {
        if i == 0 {
          NestsDeeper(items[0], a, d);
        } else {
          NestsDeeper(items[1..][i - 1], b, d);
        }
      }
    }
  }

  lemma {:induction false} SomeDepthOfVals(entries: seq<Entry>) returns (d: nat)
    ensures forall i :: 0 <= i < |entries| ==> Nests(entries[i].val, d)
    decreases entries, 1
  {
    d := 0;
    if entries != [] {
      assert entries[0] in entries && entries[0].val < entries[0];
      var a := SomeDepth(entries[0].val);
      var b := SomeDepthOfVals(entries[1..]);
      d := if a < b then b else a;
      forall i | 0 <= i < |entries|
        ensures Nests(entries[i].val, d)
      {
        if i == 0 {
          NestsDeeper(entries[0].val, a, d);
        } else {
          NestsDeeper(entries[1..][i - 1].val, b, d);
        }
      }
    }
  }

  // ---------------------------------------------------------------- printing then reading

  lemma ParsePrinted(h: Host, v: Value)
    requires Lawful(h) && IsPayload(v) && Nests(v, MAX_DEPTH)
    ensures Parse(Print(h, v)) == Ok(RoundTrip.Tree(h, Canon(v)))
  {
    CanonPayload(v);
    CanonNests(v, MAX_DEPTH);
    RoundTrip.PrintedReadsAs(h, Canon(v), MAX_DEPTH);
    var s := Print(h, v);
    assert SkipSpace(s) == s && s + "" == s;
    assert Decode(s) == Got(RoundTrip.Tree(h, Canon(v)), "");
  }

  /** A payload's text is accepted, and every value it can be read as is that payload. */
  lemma PayloadReadsBack(h: Host, v: Value, w: Value)
    requires Lawful(h) && IsPayload(v) && Nests(v, MAX_DEPTH)
    ensures Accepts(h, Print(h, v)) && Reads(h, Print(h, v), Canon(v))
    ensures Reads(h, Print(h, v), w) ==> SameValue(v, w)
  {
    ParsePrinted(h, v);
    CanonPayload(v);
    CanonIdempotent(v);
    var n := RoundTrip.Tree(h, Canon(v));
    TreeDenotes(h, Canon(v));
    DenotedIsAdmitted(h, n, Canon(v));
    if Reads(h, Print(h, v), w) {
      DenotedIsUnique(h, n, Canon(v), w);
    }
  }

  /** Whatever is read is a payload within the decoder's depth. */
  lemma ReadIsPayload(h: Host, text: string, v: Value)
    requires Lawful(h) && Reads(h, text, v)
    ensures IsPayload(v) && Nests(v, MAX_DEPTH)
  {
    DenotedIsPayload(h, Parse(text).value, v, MAX_DEPTH);
  }

  /** What v prints as can be read as v. */
  ghost predicate ComesBack(h: Host, v: Value) {
    exists w :: Reads(h, Print(h, v), w) && SameValue(v, w)
  }

  /** Exactly the payloads within the decoder's depth come back. */
  lemma RoundTripExactly(h: Host, v: Value)
    requires Lawful(h)
    ensures ComesBack(h, v) <==> IsPayload(v) && Nests(v, MAX_DEPTH)
  {
    if w :| Reads(h, Print(h, v), w) && SameValue(v, w) {
      ReadIsPayload(h, Print(h, v), w);
      CanonPayload(v);
      CanonPayload(w);
      CanonNests(v, MAX_DEPTH);
      CanonNests(w, MAX_DEPTH);
    }
    if IsPayload(v) && Nests(v, MAX_DEPTH) {
      PayloadReadsBack(h, v, v);
      CanonIdempotent(v);
      assert SameValue(v, Canon(v));
    }
  }

  /** The two cases the package comment names: a lone "$bytes" key, and a key that is not text. */
  lemma NamedCasesAreLost(h: Host, v: Value, entries: seq<Entry>, i: nat)
    requires Lawful(h) && i < |entries| && !entries[i].key.Text?
    ensures !ComesBack(h, Map([Entry(Text(BYTES_KEY), v)])) && !ComesBack(h, Map(entries))
  {
    RoundTripExactly(h, Map([Entry(Text(BYTES_KEY), v)]));
    RoundTripExactly(h, Map(entries));
  }

  /** n lists inside one another around a null. */
  function Nested(n: nat): (v: Value) {
    if n == 0 then Value.Null else List([Nested(n - 1)])
  }

  lemma {:induction false} NestedNests(n: nat, depth: nat)
    ensures IsPayload(Nested(n)) && (Nests(Nested(n), depth) <==> n <= depth)
  {
    if n > 0 {
      NestedNests(n - 1, if depth > 0 then depth - 1 else 0);
      assert Nested(n).items[0] == Nested(n - 1);
    }
  }

  /** And a third one it does not name: what nests too deep for the decoder. */
  lemma TooDeepIsLost(h: Host, n: nat)
    requires Lawful(h) && n > MAX_DEPTH
    ensures IsPayload(Nested(n)) && !ComesBack(h, Nested(n))
  {
    NestedNests(n, MAX_DEPTH);
    RoundTripExactly(h, Nested(n));
  }

  // ---------------------------------------------------------------- reading then printing

  /** Two readings of one text are one value: the order in which Go hands out the members of an
      object does not matter. */
  lemma ReadingIsUnique(h: Host, text: string, v: Value, w: Value)
    requires Reads(h, text, v) && Reads(h, text, w)
    ensures SameValue(v, w) && Print(h, v) == Print(h, w)
  {
    DenotedIsUnique(h, Parse(text).value, v, w);
  }

  /** What was read prints as text that reads back the same and prints the same again. */
  lemma ReadThenPrintSettles(h: Host, text: string, v: Value, w: Value)
    requires Lawful(h) && Reads(h, text, v)
    ensures Accepts(h, Print(h, v)) && Reads(h, Print(h, v), Canon(v))
    ensures Reads(h, Print(h, v), w) ==> SameValue(v, w) && Print(h, w) == Print(h, v)
  {
    ReadIsPayload(h, text, v);
    PayloadReadsBack(h, v, w);
  }

  /** Parsing gives a tree for exactly the texts that are, by the grammar of RFC 8259, that tree's and
      nothing more. */
  lemma ParsesItsDocuments(text: string, n: Json)
    ensures Parse(text) == Ok(n) <==> JsonSoundness.IsDocument(text, n)
  {
    JsonSoundness.ParsedExactly(text, n);
  }

  /** A text is accepted exactly when it is one JSON value in which nothing, at any depth, is a
      boolean, an integer outside int64, a number beyond the finite floats, or a lone "$bytes"
      without base64. */
  lemma AcceptedExactly(h: Host, text: string)
    ensures Accepts(h, text) <==>
            exists n :: JsonSoundness.IsDocument(text, n) && forall m :: Within(m, n) ==> IsCarried(h, m)
  {
    if Accepts(h, text) {
      var n := Parse(text).value;
      ParsesItsDocuments(text, n);
      AdmittedIffAllCarried(h, n);
    }
    if n :| JsonSoundness.IsDocument(text, n) && forall m :: Within(m, n) ==> IsCarried(h, m) {
      ParsesItsDocuments(text, n);
      AdmittedIffAllCarried(h, n);
    }
  }

  /** What is printed is JSON. */
  lemma PrintedIsDocument(h: Host, v: Value)
    requires Lawful(h) && IsPayload(v) && Nests(v, MAX_DEPTH)
    ensures JsonSoundness.IsDocument(Print(h, v), RoundTrip.Tree(h, Canon(v)))
  {
    ParsePrinted(h, v);
    ParsesItsDocuments(Print(h, v), RoundTrip.Tree(h, Canon(v)));
  }

  /** Acceptance and having a reading are the same. */
  lemma AcceptedIsRead(h: Host, text: string)
    ensures Accepts(h, text) <==> exists v :: Reads(h, text, v)
  {
    if Accepts(h, text) {
      var v := SomeReading(h, Parse(text).value);
      assert Reads(h, text, v);
    }
    if v :| Reads(h, text, v) {
      DenotedIsAdmitted(h, Parse(text).value, v);
    }
  }

  lemma {:induction false} SomeReading(h: Host, n: Json) returns (v: Value)
    requires Admits(h, n)
    ensures Denotes(h, n, v)
    decreases n, 1, 0
  {
    match n
    case Null => v := Value.Null;
    case String(t) => v := Text(t);
    case Number(literal) => v := NumberValue(h, literal).value;
    case Array(items) =>
      var vs := SomeReadings(h, items);
      v := List(vs);
    case Object(members) =>
      if IsMarked(members) {
        v := MarkedBytes(members[BYTES_KEY]).value;
      } else {
        var es := SomeEntries(h, members, members.Keys);
        assert |members| == |members.Keys|;
        v := Map(es);
      }
  }

  lemma {:induction false} SomeReadings(h: Host, items: seq<Json>) returns (vs: seq<Value>)
    requires forall i :: 0 <= i < |items| ==> Admits(h, items[i])
    ensures |vs| == |items| && forall i :: 0 <= i < |items| ==> Denotes(h, items[i], vs[i])
    decreases items, 1, 0
  {
    vs := [];
    if items != [] {
      var v := SomeReading(h, items[0]);
      var tail := SomeReadings(h, items[1..]);
      vs := [v] + tail;
    }
  }

  lemma {:induction false} SomeEntries(h: Host, members: map<string, Json>, keys: set<string>) returns (es: seq<Entry>)
    requires keys <= members.Keys && forall k :: k in members ==> Admits(h, members[k])
    ensures |es| == |keys| && DistinctKeys(es)
    ensures forall i :: 0 <= i < |es| ==>
              es[i].key.Text? && es[i].key.text in keys && Denotes(h, members[es[i].key.text], es[i].val)
    decreases Object(members), 0, |keys|
  {
    es := [];
    if keys != {} {
      var k :| k in keys;
      assert members[k] < Object(members);
      var v := SomeReading(h, members[k]);
      var tail := SomeEntries(h, members, keys - {k});
      es := [Entry(Text(k), v)] + tail;
    }
  }

  // ---------------------------------------------------------------- one value, one text, one encoding

  /** Printing tells payloads apart. */
  lemma PrintInjective(h: Host, v: Value, w: Value)
    requires Lawful(h) && IsPayload(v) && IsPayload(w) && Print(h, v) == Print(h, w)
    ensures SameValue(v, w)
  {
    var d := SomeDepth(v);
    var e := SomeDepth(w);
    var depth := if d < e then e else d;
    NestsDeeper(v, d, depth);
    NestsDeeper(w, e, depth);
    CanonPayload(v);
    CanonPayload(w);
    CanonNests(v, depth);
    CanonNests(w, depth);
    RoundTrip.PrintedReadsAs(h, Canon(v), depth);
    RoundTrip.PrintedReadsAs(h, Canon(w), depth);
    assert JsonReader.Value(Print(h, v) + "", depth) == Got(RoundTrip.Tree(h, Canon(v)), "");
    assert JsonReader.Value(Print(h, w) + "", depth) == Got(RoundTrip.Tree(h, Canon(w)), "");
    TreeDenotes(h, Canon(v));
    TreeDenotes(h, Canon(w));
    DenotedIsUnique(h, RoundTrip.Tree(h, Canon(v)), Canon(v), Canon(w));
    CanonIdempotent(v);
    CanonIdempotent(w);
  }

  lemma {:induction false} CanonSized(v: Value)
    requires CborOrder.Sized(v)
    ensures CborOrder.Sized(Canon(v))
    decreases v
  {
    match v
    case List(items) =>
      forall i | 0 <= i < |items|
        ensures CborOrder.Sized(Canon(items[i]))
      {
        CanonSized(items[i]);
      }
    case Map(entries) =>
      var cs := Sort(CanonEntries(entries));
      forall j | 0 <= j < |cs|
        ensures CborOrder.Sized(cs[j].key) && CborOrder.Sized(cs[j].val)
      {
        var i := CanonEntryFrom(entries, cs[j]);
        CanonSized(entries[i].key);
        CanonSized(entries[i].val);
      }
    case _ =>
  }

  /** Two payloads print the same exactly when they encode the same. */
  lemma SameTextIffSameEncoding(h: Host, v: Value, w: Value)
    requires Lawful(h) && IsPayload(v) && IsPayload(w)
    requires CborOrder.Sized(v) && CborOrder.Sized(w)
    ensures Print(h, v) == Print(h, w) <==> Encode(v) == Encode(w)
  {
    if Print(h, v) == Print(h, w) {
      PrintInjective(h, v, w);
    }
    if Encode(v) == Encode(w) {
      CanonSized(v);
      CanonSized(w);
      CborOrder.EncodingPrefixFree(Canon(v), Canon(w), [], []);
    }
  }

  /** w is v with the entries of its maps in some other order, at any depth. */
  ghost predicate Rearranged(v: Value, w: Value) {
    match v
    case List(items) =>
      w.List? && |w.items| == |items| && forall i :: 0 <= i < |items| ==> Rearranged(items[i], w.items[i])
    case Map(entries) =>
      && w.Map?
      && |w.entries| == |entries|
      && forall i :: 0 <= i < |entries| ==> RearrangedAmong(entries[i], w.entries)
    case _ => v == w
  }

  ghost predicate RearrangedAmong(e: Entry, fs: seq<Entry>) {
    exists j :: 0 <= j < |fs| && fs[j].key == e.key && Rearranged(e.val, fs[j].val)
  }

  /** The same payload means rearranged, nothing more and nothing less. */
  lemma {:induction false} SameValueIffRearranged(v: Value, w: Value)
    requires IsPayload(v) && IsPayload(w)
    ensures SameValue(v, w) <==> Rearranged(v, w)
    decreases v
  {
    match v
    case List(items) =>
      if w.List? && |w.items| == |items| {
        forall i | 0 <= i < |items|
          ensures SameValue(items[i], w.items[i]) <==> Rearranged(items[i], w.items[i])
        {
          SameValueIffRearranged(items[i], w.items[i]);
        }
        SameListIffSameItems(items, w.items);
      } else if w.List? {
        assert |CanonItems(items)| != |CanonItems(w.items)|;
      }
    case Map(entries) =>
      if w.Map? && |w.entries| == |entries| {
        forall i | 0 <= i < |entries|
          ensures SameAmong(entries[i], w.entries) <==> RearrangedAmong(entries[i], w.entries)
        {
          forall j | 0 <= j < |w.entries|
            ensures SameValue(entries[i].val, w.entries[j].val) <==> Rearranged(entries[i].val, w.entries[j].val)
          {
            SameValueIffRearranged(entries[i].val, w.entries[j].val);
          }
        }
        SameMapIffMatched(entries, w.entries);
      } else if w.Map? {
        assert |Sort(CanonEntries(entries))| != |Sort(CanonEntries(w.entries))|;
      }
    case _ =>
  }

  lemma SameListIffSameItems(vs: seq<Value>, ws: seq<Value>)
    requires |vs| == |ws|
    ensures SameValue(List(vs), List(ws)) <==> forall i :: 0 <= i < |vs| ==> SameValue(vs[i], ws[i])
  {
    var cs, ds := CanonItems(vs), CanonItems(ws);
    if cs == ds {
      forall i | 0 <= i < |vs|
        ensures SameValue(vs[i], ws[i])
      {
        assert cs[i] == ds[i];
      }
    }
    if forall i :: 0 <= i < |vs| ==> SameValue(vs[i], ws[i]) {
      assert forall i :: 0 <= i < |vs| ==> cs[i] == ds[i];
      assert cs == ds;
    }
  }

  ghost predicate SameAmong(e: Entry, fs: seq<Entry>) {
    exists j :: 0 <= j < |fs| && fs[j].key == e.key && SameValue(e.val, fs[j].val)
  }

  /** Each of es stands among fs, with the same value. */
  ghost predicate Matched(es: seq<Entry>, fs: seq<Entry>) {
    forall i :: 0 <= i < |es| ==> SameAmong(es[i], fs)
  }

  lemma SameMapIffMatched(es: seq<Entry>, fs: seq<Entry>)
    requires IsPayload(Map(es)) && IsPayload(Map(fs)) && |es| == |fs|
    ensures SameValue(Map(es), Map(fs)) <==> Matched(es, fs)
  {
    if SameValue(Map(es), Map(fs)) {
      RearrangedEntries(es, fs);
    }
    if Matched(es, fs) {
      SameEntries(es, fs);
    }
  }

  lemma RearrangedEntries(es: seq<Entry>, fs: seq<Entry>)
    requires AllTextKeys(es) && AllTextKeys(fs) && SameValue(Map(es), Map(fs))
    ensures Matched(es, fs)
  {
    forall i | 0 <= i < |es|
      ensures SameAmong(es[i], fs)
    {
      CanonEntryThere(es, i);
      var j := CanonEntryFrom(fs, CanonEntry(es[i]));
      assert fs[j].key == es[i].key;
    }
  }

  lemma SameEntries(es: seq<Entry>, fs: seq<Entry>)
    requires AllTextKeys(es) && AllTextKeys(fs) && DistinctKeys(es) && DistinctKeys(fs) && |es| == |fs|
    requires Matched(es, fs)
    ensures SameValue(Map(es), Map(fs))
  {
    var cs, ds := CanonEntries(es), CanonEntries(fs);
    forall e | e in cs
      ensures e in ds
    {
      var i :| 0 <= i < |cs| && cs[i] == e;
      assert SameAmong(es[i], fs);
      var j :| 0 <= j < |fs| && fs[j].key == es[i].key && SameValue(es[i].val, fs[j].val);
      assert ds[j] == e;
    }
    KeySetSize(es);
    KeySetSize(fs);
    forall k | k in KeySet(es)
      ensures k in KeySet(fs)
    {
      var i :| 0 <= i < |es| && es[i].key == k;
      assert SameAmong(es[i], fs);
      var j :| 0 <= j < |fs| && fs[j].key == es[i].key;
    }
    SubsetOfSameSize(KeySet(es), KeySet(fs));
    forall e | e in ds
      ensures e in cs
    {
      var j :| 0 <= j < |ds| && ds[j] == e;
      assert fs[j].key in KeySet(es);
      var i :| 0 <= i < |es| && es[i].key == fs[j].key;
      assert SameAmong(es[i], fs);
      var k :| 0 <= k < |fs| && fs[k].key == es[i].key && SameValue(es[i].val, fs[k].val);
      assert k == j;
      assert cs[i] == e;
    }
    SameEntriesSameMap(es, fs);
  }
}
