/** Which values a tree may be read as: only payloads, all of them the same but for the order of map
    entries, and some value exactly when nothing in the tree is refused. */
module Denotation {
  import opened Bytes
  import opened Canonical
  import opened JsonReader
  import opened JsonText
  import opened WireJson
  import opened WireValue
  import opened Wrappers
  import Base64
  import Decimal
  import RoundTrip

  // ---------------------------------------------------------------- keys

  ghost function KeySet(entries: seq<Entry>): (s: set<Value>) {
    set i | 0 <= i < |entries| :: entries[i].key
  }

  lemma {:induction false} KeySetSize(entries: seq<Entry>)
    requires DistinctKeys(entries)
    ensures |KeySet(entries)| == |entries|
  {
    if entries != [] {
      var init, last := entries[..|entries| - 1], entries[|entries| - 1];
      KeySetSize(init);
      assert forall i :: 0 <= i < |init| ==> init[i] == entries[i];
      assert KeySet(entries) == KeySet(init) + {last.key} by {
        forall k | k in KeySet(init) + {last.key}
          ensures k in KeySet(entries)
        {
          if k == last.key {
            assert entries[|entries| - 1].key == k;
          }
        }
      }
      assert last.key !in KeySet(init);
    } else {
      assert KeySet(entries) == {};
    }
  }

  lemma {:induction false} SubsetOfSameSize<T>(a: set<T>, b: set<T>)
    requires a <= b && |a| == |b|
    ensures a == b
  {
    if a != b {
      var x :| x in b && x !in a;
      assert a <= b - {x};
      SubsetSize(a, b - {x});
    }
  }

  lemma {:induction false} SubsetSize<T>(a: set<T>, b: set<T>)
    requires a <= b
    ensures |a| <= |b|
  {
    if a != {} {
      var x :| x in a;
      SubsetSize(a - {x}, b - {x});
    }
  }

  ghost function TextKeys(keys: set<string>): (s: set<Value>)
    ensures |s| == |keys|
    ensures forall v :: v in s <==> v.Text? && v.text in keys
    decreases |keys|
  {
    if keys == {} then {}
    else
      var k :| k in keys;
      TextKeys(keys - {k}) + {Text(k)}
  }

  /** As many entries as an object has members, with distinct keys among the object's: each member
      has its entry. */
  lemma EveryMemberHasEntry(members: map<string, Json>, entries: seq<Entry>, key: string) returns (i: nat)
    requires DistinctKeys(entries) && |entries| == |members| && key in members
    requires forall i :: 0 <= i < |entries| ==> entries[i].key.Text? && entries[i].key.text in members
    ensures i < |entries| && entries[i].key == Text(key)
  {
    var all := TextKeys(members.Keys);
    KeySetSize(entries);
    assert |members| == |members.Keys|;
    SubsetOfSameSize(KeySet(entries), all);
    assert Text(key) in KeySet(entries);
    i :| 0 <= i < |entries| && entries[i].key == Text(key);
  }

  ghost predicate DistinctMembers(ms: seq<Member>) {
    forall i, j :: 0 <= i < j < |ms| ==> ms[i].key != ms[j].key
  }

  lemma LastWinsExtended(init: seq<Member>, last: Member)
    requires DistinctMembers(init + [last])
    ensures DistinctMembers(init)
    ensures LastWins(init + [last]) == LastWins(init)[last.key := last.value]
    ensures last.key !in LastWins(init)
    ensures |LastWins(init + [last])| == |LastWins(init)| + 1
  {
    var ms, m := init + [last], LastWins(init);
    assert ms[..|ms| - 1] == init && ms[|ms| - 1] == last;
    forall i | 0 <= i < |init|
      ensures init[i].key != last.key
    {
      assert ms[i] == init[i];
    }
    assert m[last.key := last.value].Keys == m.Keys + {last.key};
  }

  /** Members with distinct keys all stay in the map. */
  lemma {:induction false} LastWinsOfDistinct(ms: seq<Member>)
    requires DistinctMembers(ms)
    ensures |LastWins(ms)| == |ms|
    ensures forall i :: 0 <= i < |ms| ==> ms[i].key in LastWins(ms) && LastWins(ms)[ms[i].key] == ms[i].value
  {
    if ms != [] {
      var init, last := ms[..|ms| - 1], ms[|ms| - 1];
      assert ms == init + [last];
      LastWinsExtended(init, last);
      LastWinsOfDistinct(init);
      forall i | 0 <= i < |ms|
        ensures ms[i].key in LastWins(ms) && LastWins(ms)[ms[i].key] == ms[i].value
      {
        if i < |init| {
          assert ms[i] == init[i];
        }
      }
    }
  }

  // ---------------------------------------------------------------- what a printed payload denotes

  /** A payload's own tree denotes it. */
  lemma {:induction false} TreeDenotes(h: Host, v: Value)
    requires Lawful(h) && IsPayload(v)
    ensures Denotes(h, RoundTrip.Tree(h, v), v)
    decreases v
  {
    match v
    case Int(i) => RoundTrip.IntTextIsInt(h, i);
    case Float(f) => RoundTrip.FloatTextIsFloat(h, f);
    case Blob(b) => BlobDenotes(h, b);
    case List(items) =>
      forall i | 0 <= i < |items|
        ensures Denotes(h, RoundTrip.Tree(h, items[i]), items[i])
      {
        TreeDenotes(h, items[i]);
      }
    case Map(entries) =>
      forall i | 0 <= i < |entries|
        ensures Denotes(h, RoundTrip.Tree(h, entries[i].val), entries[i].val)
      {
        TreeDenotes(h, entries[i].val);
      }
      MapDenotes(h, entries);
    case _ =>
  }

  lemma BlobDenotes(h: Host, b: bytes)
    ensures Denotes(h, RoundTrip.Tree(h, Blob(b)), Blob(b))
  {
    Base64.RoundTrip(b);
  }

  lemma MapDenotes(h: Host, entries: seq<Entry>)
    requires IsPayload(Map(entries))
    requires forall i :: 0 <= i < |entries| ==> Denotes(h, RoundTrip.Tree(h, entries[i].val), entries[i].val)
    ensures Denotes(h, RoundTrip.Tree(h, Map(entries)), Map(entries))
  {
    var ms := RoundTrip.TreeMembers(h, entries);
    forall i, j | 0 <= i < j < |ms|
      ensures ms[i].key != ms[j].key
    {
      assert entries[i].key != entries[j].key;
    }
    LastWinsOfDistinct(ms);
    var m := LastWins(ms);
    assert |m.Keys| == |entries|;
    if |entries| == 1 {
      assert ms[0].key in m.Keys && ms[0].key != BYTES_KEY;
    }
    assert |{BYTES_KEY}| == 1;
    forall i | 0 <= i < |entries|
      ensures entries[i].key.text in m && Denotes(h, m[entries[i].key.text], entries[i].val)
    {
      assert ms[i].key in m;
    }
  }

  // ---------------------------------------------------------------- all readings are the same value

  /** Whatever order the members come in, the same value is read. */
  lemma {:induction false} DenotedIsUnique(h: Host, n: Json, v: Value, w: Value)
    requires Denotes(h, n, v) && Denotes(h, n, w)
    ensures SameValue(v, w)
    decreases n
  {
    match n
    case Array(items) =>
      forall i | 0 <= i < |items|
        ensures SameValue(v.items[i], w.items[i])
      {
        DenotedIsUnique(h, items[i], v.items[i], w.items[i]);
      }
      assert CanonItems(v.items) == CanonItems(w.items);
    case Object(members) =>
      if !IsMarked(members) {
        forall e | e in CanonEntries(v.entries)
          ensures e in CanonEntries(w.entries)
        {
          ObjectEntryThere(h, members, v, w, e);
        }
        forall e | e in CanonEntries(w.entries)
          ensures e in CanonEntries(v.entries)
        {
          ObjectEntryThere(h, members, w, v, e);
        }
        SameEntriesSameMap(v.entries, w.entries);
      }
    case _ =>
  }

  lemma {:induction false} ObjectEntryThere(h: Host, members: map<string, Json>, v: Value, w: Value, e: Entry)
    requires Denotes(h, Object(members), v) && Denotes(h, Object(members), w) && !IsMarked(members)
    requires e in CanonEntries(v.entries)
    ensures e in CanonEntries(w.entries)
    decreases Object(members), 0
  {
    var i :| 0 <= i < |v.entries| && CanonEntries(v.entries)[i] == e;
    var key := v.entries[i].key.text;
    var j := EveryMemberHasEntry(members, w.entries, key);
    DenotedIsUnique(h, members[key], v.entries[i].val, w.entries[j].val);
    assert CanonEntries(w.entries)[j] == e;
  }

  /** Maps with the same canonical entries under distinct text keys have one canonical form. */
  lemma SameEntriesSameMap(a: seq<Entry>, b: seq<Entry>)
    requires AllTextKeys(a) && AllTextKeys(b) && DistinctKeys(a) && DistinctKeys(b)
    requires SameElements(CanonEntries(a), CanonEntries(b))
    ensures Canon(Map(a)) == Canon(Map(b))
  {
    SortStrict(a);
    SortStrict(b);
    var s, t := Sort(CanonEntries(a)), Sort(CanonEntries(b));
    forall e
      ensures e in s <==> e in t
    {
      assert e in s <==> e in multiset(s);
      assert e in CanonEntries(a) <==> e in multiset(CanonEntries(a));
      assert e in t <==> e in multiset(t);
      assert e in CanonEntries(b) <==> e in multiset(CanonEntries(b));
    }
    SortedIsUnique(s, t);
  }

  lemma SortStrict(entries: seq<Entry>)
    requires AllTextKeys(entries) && DistinctKeys(entries)
    ensures StrictlySorted(Sort(CanonEntries(entries)))
  {
    CanonDistinctKeys(entries);
    var s := Sort(CanonEntries(entries));
    SortSorted(CanonEntries(entries));
    DistinctTextKeysAreApart(s);
    StrictWhenApart(s);
  }

  // ---------------------------------------------------------------- only payloads are read

  /** Everything that can be read is a payload, nested no deeper than its tree. */
  lemma {:induction false} DenotedIsPayload(h: Host, n: Json, v: Value, depth: nat)
    requires Lawful(h) && Denotes(h, n, v) && Fits(n, depth)
    ensures IsPayload(v) && Nests(v, depth)
    decreases n
  {
    match n
    case Array(items) =>
      forall i | 0 <= i < |items|
        ensures IsPayload(v.items[i]) && Nests(v.items[i], depth - 1)
      {
        DenotedIsPayload(h, items[i], v.items[i], depth - 1);
      }
    case Object(members) =>
      if !IsMarked(members) {
        forall i | 0 <= i < |v.entries|
          ensures IsPayload(v.entries[i].val) && Nests(v.entries[i].val, depth - 1)
        {
          DenotedIsPayload(h, members[v.entries[i].key.text], v.entries[i].val, depth - 1);
        }
        if OnlyBytesKey(v.entries) {
          assert BYTES_KEY in members.Keys && |members.Keys| == 1;
          SubsetOfSameSize({BYTES_KEY}, members.Keys);
        }
      }
    case _ =>
  }

  // ---------------------------------------------------------------- what is refused

  lemma {:induction false} DenotedIsAdmitted(h: Host, n: Json, v: Value)
    requires Denotes(h, n, v)
    ensures Admits(h, n)
    decreases n
  {
    match n
    case Array(items) =>
      forall i | 0 <= i < |items|
        ensures Admits(h, items[i])
      {
        DenotedIsAdmitted(h, items[i], v.items[i]);
      }
    case Object(members) =>
      if !IsMarked(members) {
        forall k | k in members
          ensures Admits(h, members[k])
        {
          var i := EveryMemberHasEntry(members, v.entries, k);
          DenotedIsAdmitted(h, members[k], v.entries[i].val);
        }
      }
    case _ =>
  }

  lemma {:induction false} RefusedIsNotAdmitted(h: Host, n: Json, e: Error)
    requires Refuses(h, n, e)
    ensures !Admits(h, n)
    decreases n
  {
    match n
    case Array(items) =>
      var i :| 0 <= i < |items| && Refuses(h, items[i], e);
      RefusedIsNotAdmitted(h, items[i], e);
    case Object(members) =>
      if !IsMarked(members) {
        var k :| k in members && Refuses(h, members[k], e);
        RefusedIsNotAdmitted(h, members[k], e);
      }
    case _ =>
  }

  /** m is something that e is said of. */
  ghost predicate Faults(h: Host, m: Json, e: Error) {
    match e
    case Boolean => m.Bool?
    case IntegerRange => m.Number? && !ContainsAny(m.literal, ".eE") && Decimal.ParseInt(m.literal).None?
    case NotFiniteFloat => m.Number? && ContainsAny(m.literal, ".eE") && h.parseFloat(m.literal).None?
    case BytesNotText => m.Object? && m.members.Keys == {"$bytes"} && !m.members["$bytes"].String?
    case BytesNotBase64 =>
      && m.Object? && m.members.Keys == {"$bytes"} && m.members["$bytes"].String?
      && !Base64.IsPadded(Base64.WithoutNewlines(m.members["$bytes"].text))
    case _ => false
  }

  lemma OwnFault(h: Host, n: Json, e: Error)
    requires Refuses(h, n, e) && !n.Array? && (n.Object? ==> IsMarked(n.members))
    ensures Faults(h, n, e)
  {
    if n.Object? && n.members[BYTES_KEY].String? {
      Base64.DecodeExactly(n.members[BYTES_KEY].text);
    }
  }

  /** An error tells of something that is in the tree. */
  lemma {:induction false} ErrorIsInTree(h: Host, n: Json, e: Error) returns (m: Json)
    requires Refuses(h, n, e)
    ensures Within(m, n) && Faults(h, m, e)
    decreases n
  {
    if n.Array? {
      var i :| 0 <= i < |n.items| && Refuses(h, n.items[i], e);
      m := ErrorIsInTree(h, n.items[i], e);
    } else if n.Object? && !IsMarked(n.members) {
      var k :| k in n.members && Refuses(h, n.members[k], e);
      m := ErrorIsInTree(h, n.members[k], e);
    } else {
      OwnFault(h, n, e);
      m := n;
    }
  }

  /** m stands somewhere in n. */
  ghost predicate Within(m: Json, n: Json) {
    || m == n
    || (n.Array? && exists i :: 0 <= i < |n.items| && Within(m, n.items[i]))
    || (n.Object? && exists k :: k in n.members && Within(m, n.members[k]))
  }

  /** n itself, whatever is inside it, is nothing the wire lacks. */
  predicate IsCarried(h: Host, n: Json) {
    match n
    case Bool(_) => false
    case Number(literal) => NumberValue(h, literal).Ok?
    case Object(members) => IsMarked(members) ==> MarkedBytes(members[BYTES_KEY]).Ok?
    case _ => true
  }

  /** A tree is read exactly when it holds, at no depth, a boolean, an integer outside int64, a
      number that is no finite float, or a lone "$bytes" that is not base64 text. */
  lemma {:induction false} AdmittedIffAllCarried(h: Host, n: Json)
    ensures Admits(h, n) <==> forall m :: Within(m, n) ==> IsCarried(h, m)
    decreases n
  {
    assert Within(n, n);
    match n
    case Array(items) =>
      forall i | 0 <= i < |items|
        ensures Admits(h, items[i]) <==> forall m :: Within(m, items[i]) ==> IsCarried(h, m)
      {
        AdmittedIffAllCarried(h, items[i]);
      }
      forall i, m | 0 <= i < |items| && Within(m, items[i])
        ensures Within(m, n)
      {
      }
    case Object(members) =>
      forall k | k in members
        ensures Admits(h, members[k]) <==> forall m :: Within(m, members[k]) ==> IsCarried(h, m)
      {
        AdmittedIffAllCarried(h, members[k]);
      }
      forall k, m | k in members && Within(m, members[k])
        ensures Within(m, n)
      {
      }
    case _ =>
  }
}
