/** Wire values and their deterministic CBOR, section 4.2.1 of RFC 8949: shortest heads, and map
    entries in the bytewise order of their encoded keys. */
module WireValue {
  import opened Bytes
  import Decimal
  import Utf8

  /** A double by its bit pattern; its arithmetic plays no part here. */
  type Bits = x: int | 0 <= x < 0x1_0000_0000_0000_0000

  predicate IsFinite(f: Bits) {
    f / 0x10_0000_0000_0000 % 2048 != 2047
  }

  /** What the wire can carry. Other stands for whatever else a decoder may hand over (a tag, say),
      by its encoding. */
  datatype Value =
    | Null
    | Int(i: int)
    | Float(bits: Bits)
    | Text(text: string)
    | Blob(bytes: bytes)
    | List(items: seq<Value>)
    | Map(entries: seq<Entry>)
    | Other(encoded: bytes)

  datatype Entry = Entry(key: Value, val: Value)

  // ---------------------------------------------------------------- encoding

  /** The n lowest bytes of x, highest first. */
  function BigEndian(x: nat, n: nat): (b: bytes)
    ensures |b| == n
  {
    if n == 0 then [] else BigEndian(x / 256, n - 1) + [x % 256]
  }

  /** A head: a major type with the shortest form of its argument, which is a uint64. */
  function Head(major: nat, n: nat): (b: bytes)
    requires major < 8
    ensures 1 <= |b| <= 9
  {
    if n < 24 then [major * 32 + n]
    else if n < 0x100 then [major * 32 + 24] + BigEndian(n, 1)
    else if n < 0x10000 then [major * 32 + 25] + BigEndian(n, 2)
    else if n < 0x1_0000_0000 then [major * 32 + 26] + BigEndian(n, 4)
    else [major * 32 + 27] + BigEndian(n, 8)
  }

  /** The encoding of v with the entries of its maps in the order they stand. */
  function EncodeAsIs(v: Value): (b: bytes)
    decreases v, 0
  {
    match v
    case Null => [0xF6]
    case Int(i) => if i >= 0 then Head(0, i) else Head(1, -1 - i)
    case Float(f) => [0xFB] + BigEndian(f, 8)
    case Text(t) => Head(3, |Utf8.Encode(t)|) + Utf8.Encode(t)
    case Blob(b) => Head(2, |b|) + b
    case List(items) => Head(4, |items|) + EncodeItems(items)
    case Map(entries) => Head(5, |entries|) + EncodeEntries(entries)
    case Other(encoded) => encoded
  }

  function EncodeItems(items: seq<Value>): (b: bytes) {
    if items == [] then [] else EncodeAsIs(items[0]) + EncodeItems(items[1..])
  }

  function EncodeEntries(entries: seq<Entry>): (b: bytes) {
    if entries == [] then [] else EncodeEntry(entries[0]) + EncodeEntries(entries[1..])
  }

  function EncodeEntry(e: Entry): (b: bytes)
    decreases e, 1
  {
    EncodeAsIs(e.key) + EncodeAsIs(e.val)
  }

  // ---------------------------------------------------------------- the canonical order of a map

  /** a's key comes before b's on the wire. */
  predicate Before(a: Entry, b: Entry) {
    Less(EncodeAsIs(a.key), EncodeAsIs(b.key))
  }

  /** e put before the first entry whose key does not come before its own. */
  function Insert(e: Entry, sorted: seq<Entry>): (r: seq<Entry>)
    ensures |r| == |sorted| + 1
    ensures multiset(r) == multiset(sorted) + multiset{e}
  {
    if sorted == [] || !Before(sorted[0], e) then
      assert multiset([e] + sorted) == multiset(sorted) + multiset{e};
      [e] + sorted
    else
      assert sorted == [sorted[0]] + sorted[1..];
      [sorted[0]] + Insert(e, sorted[1..])
  }

  function Sort(entries: seq<Entry>): (r: seq<Entry>)
    ensures |r| == |entries|
    ensures multiset(r) == multiset(entries)
  {
    if entries == [] then []
    else
      assert entries == [entries[0]] + entries[1..];
      Insert(entries[0], Sort(entries[1..]))
  }

  /** v with the entries of every map in it in canonical order. */
  function Canon(v: Value): (c: Value)
    decreases v, 0
  {
    match v
    case List(items) => List(CanonItems(items))
    case Map(entries) => Map(Sort(CanonEntries(entries)))
    case _ => v
  }

  function CanonItems(items: seq<Value>): (cs: seq<Value>)
    ensures |cs| == |items|
    ensures forall i :: 0 <= i < |items| ==> cs[i] == Canon(items[i])
    decreases items, 1
  {
    if items == [] then [] else [Canon(items[0])] + CanonItems(items[1..])
  }

  function CanonEntry(e: Entry): (c: Entry)
    decreases e, 1
  {
    Entry(Canon(e.key), Canon(e.val))
  }

  function CanonEntries(entries: seq<Entry>): (cs: seq<Entry>)
    ensures |cs| == |entries|
    ensures forall i :: 0 <= i < |entries| ==> cs[i] == CanonEntry(entries[i])
    decreases entries, 2
  {
    if entries == [] then [] else [CanonEntry(entries[0])] + CanonEntries(entries[1..])
  }

  /** `cbor.Encode`. */
  function Encode(v: Value): (b: bytes) {
    EncodeAsIs(Canon(v))
  }

  /** The two are one map, list or scalar but for the order of map entries, at any depth. */
  ghost predicate SameValue(v: Value, w: Value) {
    Canon(v) == Canon(w)
  }

  // ---------------------------------------------------------------- payloads

  const BYTES_KEY := "$bytes"

  ghost predicate DistinctKeys(entries: seq<Entry>) {
    forall i, j :: 0 <= i < j < |entries| ==> entries[i].key != entries[j].key
  }

  /** The one map JSON reads as bytes. */
  predicate OnlyBytesKey(entries: seq<Entry>) {
    |entries| == 1 && entries[0].key == Text(BYTES_KEY)
  }

  /** What a macula payload holds: int64 integers, finite floats, maps with distinct text keys that
      are not the one-key form of bytes. */
  ghost predicate IsPayload(v: Value) {
    match v
    case Int(i) => Decimal.IsInt64(i)
    case Float(f) => IsFinite(f)
    case List(items) => forall i :: 0 <= i < |items| ==> IsPayload(items[i])
    case Map(entries) =>
      && DistinctKeys(entries)
      && !OnlyBytesKey(entries)
      && forall i :: 0 <= i < |entries| ==> entries[i].key.Text? && IsPayload(entries[i].val)
    case Other(_) => false
    case _ => true
  }

  /** No more than depth lists, maps and byte strings (JSON objects, all of them) inside one another. */
  ghost predicate Nests(v: Value, depth: nat) {
    match v
    case Blob(_) => depth > 0
    case List(items) => depth > 0 && forall i :: 0 <= i < |items| ==> Nests(items[i], depth - 1)
    case Map(entries) => depth > 0 && forall i :: 0 <= i < |entries| ==> Nests(entries[i].val, depth - 1)
    case _ => true
  }
}
