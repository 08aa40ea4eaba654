/** What putting map entries in canonical order does and does not change. */
module Canonical {
  import opened Bytes
  import opened WireValue
  import Utf8

  // ---------------------------------------------------------------- order

  /** Different keys encode differently. */
  ghost predicate Apart(entries: seq<Entry>) {
    forall i, j :: 0 <= i < j < |entries| ==> EncodeAsIs(entries[i].key) != EncodeAsIs(entries[j].key)
  }

  ghost predicate Sorted(entries: seq<Entry>) {
    forall i, j :: 0 <= i < j < |entries| ==> !Before(entries[j], entries[i])
  }

  ghost predicate StrictlySorted(entries: seq<Entry>) {
    forall i, j :: 0 <= i < j < |entries| ==> Before(entries[i], entries[j])
  }

  /** Not coming before is transitive, the order being total. */
  lemma NotBeforeTransitive(a: Entry, b: Entry, c: Entry)
    requires !Before(b, a) && !Before(c, b)
    ensures !Before(c, a)
  {
    var x, y, z := EncodeAsIs(a.key), EncodeAsIs(b.key), EncodeAsIs(c.key);
    if Less(z, x) {
      LessTotal(x, y);
      LessTotal(y, z);
      if x == y {
        assert false;
      } else if y == z {
        assert false;
      } else {
        LessTransitive(x, y, z);
        LessAsymmetric(x, z);
      }
    }
  }

  lemma NoneBeforeFirst(e: Entry, s: seq<Entry>)
    requires Sorted(s) && (s == [] || !Before(s[0], e))
    ensures Sorted([e] + s)
  {
    forall j | 0 <= j < |s|
      ensures !Before(s[j], e)
    {
      if j > 0 {
        NotBeforeTransitive(e, s[0], s[j]);
      }
    }
  }

  lemma FirstStaysFirst(first: Entry, t: seq<Entry>)
    requires Sorted(t) && forall x :: x in t ==> !Before(x, first)
    ensures Sorted([first] + t)
  {
  }

  lemma {:induction false} InsertSorted(e: Entry, s: seq<Entry>)
    requires Sorted(s)
    ensures Sorted(Insert(e, s))
  {
    if s == [] || !Before(s[0], e) {
      NoneBeforeFirst(e, s);
    } else {
      LessAsymmetric(EncodeAsIs(s[0].key), EncodeAsIs(e.key));
      InsertSorted(e, s[1..]);
      var t := Insert(e, s[1..]);
      forall x | x in t
        ensures !Before(x, s[0])
      {
        assert x in multiset(t);
        assert x == e || x in s[1..];
      }
      FirstStaysFirst(s[0], t);
    }
  }

  lemma {:induction false} SortSorted(entries: seq<Entry>)
    ensures Sorted(Sort(entries))
  {
    if entries != [] {
      SortSorted(entries[1..]);
      InsertSorted(entries[0], Sort(entries[1..]));
    }
  }

  lemma {:induction false} SortOfSorted(s: seq<Entry>)
    requires Sorted(s)
    ensures Sort(s) == s
  {
    if s != [] {
      SortOfSorted(s[1..]);
      assert s == [s[0]] + s[1..];
    }
  }

  lemma StrictWhenApart(s: seq<Entry>)
    requires Sorted(s) && Apart(s)
    ensures StrictlySorted(s)
  {
    forall i, j | 0 <= i < j < |s|
      ensures Before(s[i], s[j])
    {
      LessTotal(EncodeAsIs(s[i].key), EncodeAsIs(s[j].key));
    }
  }

  lemma {:induction false} Occurrence(s: seq<Entry>, x: Entry) returns (p: nat)
    requires x in multiset(s)
    ensures p < |s| && s[p] == x
  {
    assert x in s;
    p :| p < |s| && s[p] == x;
  }

  /** What occurs twice in a multiset of entries stands at two places. */
  lemma {:induction false} TwoOccurrences(s: seq<Entry>, x: Entry) returns (p: nat, q: nat)
    requires multiset(s)[x] >= 2
    ensures p < q < |s| && s[p] == s[q] == x
  {
    assert s == [s[0]] + s[1..];
    if s[0] == x {
      p := 0;
      q := Occurrence(s[1..], x);
      q := q + 1;
    } else {
      p, q := TwoOccurrences(s[1..], x);
      p, q := p + 1, q + 1;
    }
  }

  lemma AtLeastTwice(s: seq<Entry>, i: nat, j: nat)
    requires i < j < |s| && s[i] == s[j]
    ensures multiset(s)[s[i]] >= 2
  {
    assert s == s[..i] + [s[i]] + s[i + 1..j] + [s[j]] + s[j + 1..];
  }

  /** Rearranging entries keeps their keys apart. */
  lemma ApartPermuted(a: seq<Entry>, b: seq<Entry>)
    requires multiset(a) == multiset(b) && Apart(a)
    ensures Apart(b)
  {
    forall i, j | 0 <= i < j < |b|
      ensures EncodeAsIs(b[i].key) != EncodeAsIs(b[j].key)
    {
      if b[i] == b[j] {
        AtLeastTwice(b, i, j);
        var p, q := TwoOccurrences(a, b[i]);
      } else {
        assert b[i] in multiset(b) && b[j] in multiset(b);
        var p := Occurrence(a, b[i]);
        var q := Occurrence(a, b[j]);
      }
    }
  }

  ghost predicate SameElements(a: seq<Entry>, b: seq<Entry>) {
    forall e :: e in a <==> e in b
  }

  lemma LeastIsFirst(a: seq<Entry>, b: seq<Entry>)
    requires StrictlySorted(a) && StrictlySorted(b) && SameElements(a, b) && a != [] && b != []
    ensures a[0] == b[0]
  {
    assert a[0] in b && b[0] in a;
    var k :| 0 <= k < |b| && b[k] == a[0];
    var j :| 0 <= j < |a| && a[j] == b[0];
    if k > 0 && j > 0 {
      assert Before(b[0], b[k]) && Before(a[0], a[j]);
      LessAsymmetric(EncodeAsIs(b[0].key), EncodeAsIs(a[0].key));
    }
  }

  lemma FirstNotAgain(a: seq<Entry>)
    requires StrictlySorted(a) && a != []
    ensures a[0] !in a[1..] && StrictlySorted(a[1..])
  {
    if a[0] in a[1..] {
      var k :| 0 <= k < |a[1..]| && a[1..][k] == a[0];
      assert Before(a[0], a[k + 1]);
      LessIrreflexive(EncodeAsIs(a[0].key));
    }
  }

  /** There is one way to sort entries whose keys are apart, whatever algorithm does it. */
  lemma {:induction false} SortedIsUnique(a: seq<Entry>, b: seq<Entry>)
    requires StrictlySorted(a) && StrictlySorted(b) && SameElements(a, b)
    ensures a == b
  {
    assert a != [] ==> a[0] in b;
    assert b != [] ==> b[0] in a;
    if a != [] {
      LeastIsFirst(a, b);
      FirstNotAgain(a);
      FirstNotAgain(b);
      assert a == [a[0]] + a[1..] && b == [b[0]] + b[1..];
      forall e
        ensures e in a[1..] <==> e in b[1..]
      {
        assert e in a <==> e == a[0] || e in a[1..];
        assert e in b <==> e == b[0] || e in b[1..];
      }
      SortedIsUnique(a[1..], b[1..]);
    }
  }

  // ---------------------------------------------------------------- text keys

  ghost predicate AllTextKeys(entries: seq<Entry>) {
    forall i :: 0 <= i < |entries| ==> entries[i].key.Text?
  }

  /** A text key can be told from its encoding. */
  lemma TextKeyInjective(s: string, t: string)
    requires EncodeAsIs(Text(s)) == EncodeAsIs(Text(t))
    ensures s == t
  {
    var u, w := Utf8.Encode(s), Utf8.Encode(t);
    var h, g := Head(3, |u|), Head(3, |w|);
    assert (h + u)[0] == h[0] && (g + w)[0] == g[0];
    assert |h| == |g|;
    assert u == (h + u)[|h|..] == (g + w)[|g|..] == w;
    Utf8.EncodeInjective(s, t);
  }

  lemma DistinctTextKeysAreApart(entries: seq<Entry>)
    requires AllTextKeys(entries)
    ensures Apart(entries) <==> DistinctKeys(entries)
  {
    if DistinctKeys(entries) {
      forall i, j | 0 <= i < j < |entries|
        ensures EncodeAsIs(entries[i].key) != EncodeAsIs(entries[j].key)
      {
        if EncodeAsIs(entries[i].key) == EncodeAsIs(entries[j].key) {
          TextKeyInjective(entries[i].key.text, entries[j].key.text);
        }
      }
    }
    if Apart(entries) {
      forall i, j | 0 <= i < j < |entries|
        ensures entries[i].key != entries[j].key
      {
        assert EncodeAsIs(entries[i].key) != EncodeAsIs(entries[j].key);
      }
    }
  }

  // ---------------------------------------------------------------- canonical values

  /** Each canonical entry is the canonical form of one of the map's. */
  lemma CanonEntryFrom(entries: seq<Entry>, c: Entry) returns (i: nat)
    requires c in Sort(CanonEntries(entries))
    ensures i < |entries| && c == CanonEntry(entries[i])
  {
    assert c in multiset(Sort(CanonEntries(entries)));
    i := Occurrence(CanonEntries(entries), c);
  }

  lemma CanonEntryThere(entries: seq<Entry>, i: nat)
    requires i < |entries|
    ensures CanonEntry(entries[i]) in Sort(CanonEntries(entries))
  {
    assert CanonEntries(entries)[i] in multiset(CanonEntries(entries));
    assert CanonEntry(entries[i]) in multiset(Sort(CanonEntries(entries)));
  }

  /** Canonical order is reached in one step. */
  lemma {:induction false} CanonIdempotent(v: Value)
    ensures Canon(Canon(v)) == Canon(v)
    decreases v
  {
    match v
    case List(items) =>
      var cs := CanonItems(items);
      forall i | 0 <= i < |items|
        ensures Canon(cs[i]) == cs[i]
      {
        CanonIdempotent(items[i]);
      }
      assert CanonItems(cs) == cs;
    case Map(entries) =>
      forall i | 0 <= i < |entries|
        ensures CanonEntry(CanonEntry(entries[i])) == CanonEntry(entries[i])
      {
        CanonIdempotent(entries[i].key);
        CanonIdempotent(entries[i].val);
      }
      CanonMapIdempotent(entries);
    case _ =>
  }

  lemma CanonMapIdempotent(entries: seq<Entry>)
    requires forall i :: 0 <= i < |entries| ==> CanonEntry(CanonEntry(entries[i])) == CanonEntry(entries[i])
    ensures Canon(Canon(Map(entries))) == Canon(Map(entries))
  {
    var cs := Sort(CanonEntries(entries));
    forall j | 0 <= j < |cs|
      ensures CanonEntry(cs[j]) == cs[j]
    {
      var i := CanonEntryFrom(entries, cs[j]);
    }
    assert CanonEntries(cs) == cs;
    SortSorted(CanonEntries(entries));
    SortOfSorted(cs);
  }

  /** A value nests as deep as its canonical form. */
  lemma {:induction false} CanonNests(v: Value, depth: nat)
    ensures Nests(Canon(v), depth) <==> Nests(v, depth)
    decreases v, 0
  {
    match v
    case List(items) => CanonNestsList(items, depth);
    case Map(entries) => CanonNestsMap(entries, depth);
    case _ =>
  }

  lemma {:induction false} CanonNestsList(items: seq<Value>, depth: nat)
    ensures SameNesting(List(items), depth)
    decreases items, 1
  {
    if depth > 0 {
      forall i | 0 <= i < |items|
        ensures SameNesting(items[i], depth - 1)
      {
        CanonNests(items[i], depth - 1);
      }
      CanonNestsItems(items, depth);
    }
  }

  lemma {:induction false} CanonNestsMap(entries: seq<Entry>, depth: nat)
    ensures SameNesting(Map(entries), depth)
    decreases entries, 1
  {
    if depth > 0 {
      forall i | 0 <= i < |entries|
        ensures SameNesting(entries[i].val, depth - 1)
      {
        assert entries[i] in entries && entries[i].val < entries[i];
        CanonNests(entries[i].val, depth - 1);
      }
      CanonNestsEntries(entries, depth);
    }
  }

  ghost predicate SameNesting(v: Value, depth: nat) {
    Nests(Canon(v), depth) <==> Nests(v, depth)
  }

  lemma CanonNestsItems(items: seq<Value>, depth: nat)
    requires depth > 0
    requires forall i :: 0 <= i < |items| ==> SameNesting(items[i], depth - 1)
    ensures Nests(Canon(List(items)), depth) <==> Nests(List(items), depth)
  {
    var cs := CanonItems(items);
    forall i | 0 <= i < |items|
      ensures Nests(cs[i], depth - 1) <==> Nests(items[i], depth - 1)
    {
      assert SameNesting(items[i], depth - 1);
    }
  }

  lemma CanonNestsEntries(entries: seq<Entry>, depth: nat)
    requires depth > 0
    requires forall i :: 0 <= i < |entries| ==> SameNesting(entries[i].val, depth - 1)
    ensures Nests(Canon(Map(entries)), depth) <==> Nests(Map(entries), depth)
  {
    var cs := Sort(CanonEntries(entries));
    if Nests(Map(entries), depth) {
      forall j | 0 <= j < |cs|
        ensures Nests(cs[j].val, depth - 1)
      {
        var i := CanonEntryFrom(entries, cs[j]);
        assert SameNesting(entries[i].val, depth - 1);
      }
    }
    if Nests(Map(cs), depth) {
      forall i | 0 <= i < |entries|
        ensures Nests(entries[i].val, depth - 1)
      {
        CanonEntryThere(entries, i);
        assert Nests(CanonEntry(entries[i]).val, depth - 1) && SameNesting(entries[i].val, depth - 1);
      }
    }
  }

  /** Reordering the entries of a map with text keys does not change whether the keys are distinct. */
  lemma CanonDistinctKeys(entries: seq<Entry>)
    requires AllTextKeys(entries)
    ensures AllTextKeys(Sort(CanonEntries(entries)))
    ensures DistinctKeys(Sort(CanonEntries(entries))) <==> DistinctKeys(entries)
  {
    var all := CanonEntries(entries);
    var cs := Sort(all);
    forall j | 0 <= j < |cs|
      ensures cs[j].key.Text?
    {
      var i := CanonEntryFrom(entries, cs[j]);
    }
    CanonTextKeysApart(entries);
    DistinctTextKeysAreApart(entries);
    DistinctTextKeysAreApart(cs);
    if Apart(entries) {
      ApartPermuted(all, cs);
    }
    if Apart(cs) {
      ApartPermuted(cs, all);
    }
  }

  lemma CanonTextKeysApart(entries: seq<Entry>)
    requires AllTextKeys(entries)
    ensures Apart(CanonEntries(entries)) <==> Apart(entries)
  {
    var all := CanonEntries(entries);
    forall i | 0 <= i < |entries|
      ensures all[i].key == entries[i].key
    {
      assert all[i] == CanonEntry(entries[i]) && entries[i].key.Text?;
    }
  }

  /** A value is a payload exactly when its canonical form is. */
  lemma {:induction false} CanonPayload(v: Value)
    ensures IsPayload(Canon(v)) <==> IsPayload(v)
    decreases v
  {
    match v
    case List(items) =>
      forall i | 0 <= i < |items|
        ensures IsPayload(Canon(items[i])) <==> IsPayload(items[i])
      {
        CanonPayload(items[i]);
      }
    case Map(entries) =>
      forall i | 0 <= i < |entries|
        ensures IsPayload(Canon(entries[i].val)) <==> IsPayload(entries[i].val)
      {
        CanonPayload(entries[i].val);
      }
      if IsPayload(v) {
        CanonOfPayloadMap(entries);
      }
      if IsPayload(Canon(v)) {
        PayloadOfCanonMap(entries);
      }
    case _ =>
  }

  lemma CanonOfPayloadMap(entries: seq<Entry>)
    requires IsPayload(Map(entries))
    requires forall i :: 0 <= i < |entries| ==> IsPayload(Canon(entries[i].val))
    ensures IsPayload(Canon(Map(entries)))
  {
    var cs := Sort(CanonEntries(entries));
    CanonDistinctKeys(entries);
    forall j | 0 <= j < |cs|
      ensures cs[j].key.Text? && IsPayload(cs[j].val)
    {
      var i := CanonEntryFrom(entries, cs[j]);
    }
    if OnlyBytesKey(cs) {
      var i := CanonEntryFrom(entries, cs[0]);
    }
  }

  lemma PayloadOfCanonMap(entries: seq<Entry>)
    requires IsPayload(Canon(Map(entries)))
    requires forall i :: 0 <= i < |entries| && IsPayload(Canon(entries[i].val)) ==> IsPayload(entries[i].val)
    ensures IsPayload(Map(entries))
  {
    var cs := Sort(CanonEntries(entries));
    forall i | 0 <= i < |entries|
      ensures entries[i].key.Text? && IsPayload(entries[i].val)
    {
      CanonEntryThere(entries, i);
      var c := CanonEntry(entries[i]);
      assert c.key.Text? && IsPayload(c.val);
    }
    CanonDistinctKeys(entries);
    if OnlyBytesKey(entries) {
      CanonEntryThere(entries, 0);
    }
  }
}
