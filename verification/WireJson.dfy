/** What wirevalue.go promises: the JSON text of a wire value, and which wire values a JSON text may
    be read as. The methods in Codec are proved against these. */
module WireJson {
  import opened Bytes
  import opened JsonReader
  import opened JsonText
  import opened WireValue
  import opened Wrappers
  import Base64
  import Decimal

  /** The conversions that are not this program's: strconv's for floats, and the text cbor prints for
      a value that JSON has no form for (a function of its encoding here). */
  datatype Host = Host(
    formatFloat: Bits -> string,
    parseFloat: string -> Option<Bits>,
    diagnostic: bytes -> string)

  /** What is taken for granted about strconv: the shortest text of a finite double is a JSON number
      that parses back to it, also with ".0" behind it when it looks like an integer; and a text with
      a fraction or exponent, which no text of an infinity or a NaN has, does not parse to one
      of those (beyond the largest double it does not parse). */
  ghost predicate Lawful(h: Host) {
    && (forall f: Bits :: IsFinite(f) ==>
          && IsNumber(h.formatFloat(f))
          && h.parseFloat(h.formatFloat(f)) == Some(f)
          && (!ContainsAny(h.formatFloat(f), ".eE") ==> h.parseFloat(h.formatFloat(f) + ".0") == Some(f)))
    && (forall t: string :: ContainsAny(t, ".eE") && h.parseFloat(t).Some? ==> IsFinite(h.parseFloat(t).value))
  }

  // That much can be granted: some host is lawful.

  const HALF := 0x8000_0000_0000_0000

  function WithoutPointZero(t: string): (s: string) {
    if |t| >= 2 && t[|t| - 2] == '.' && t[|t| - 1] == '0' then t[..|t| - 2] else t
  }

  function FiniteBits(f: Bits): (r: Option<Bits>)
    ensures r.Some? ==> IsFinite(r.value)
    ensures IsFinite(f) ==> r == Some(f)
  {
    if IsFinite(f) then Some(f) else None
  }

  /** The double whose bit pattern, less HALF, t spells in decimal. */
  function SpelledBits(t: string): (r: Option<Bits>)
    ensures r.Some? ==> IsFinite(r.value)
  {
    match Decimal.ParseInt(WithoutPointZero(t))
    case Some(i) => FiniteBits(i + HALF)
    case None => None
  }

  lemma PointZeroDropped(t: string)
    requires !ContainsAny(t, ".eE")
    ensures WithoutPointZero(t) == WithoutPointZero(t + ".0") == t
  {
    assert (t + ".0")[..|t|] == t;
    assert '.' == ".eE"[0];
    assert forall i :: 0 <= i < |t| ==> t[i] != '.';
  }

  lemma SpelledBitsRead(t: string, i: int)
    requires Decimal.IsInt64(i) && t == Decimal.PrintInt(i)
    ensures IsNumber(t) && SpelledBits(t) == SpelledBits(t + ".0") == FiniteBits(i + HALF)
  {
    PrintedIntIsNumber(i);
    PointZeroDropped(t);
    Decimal.IntRoundTrip(i);
  }

  function PlainFormat(f: Bits): (t: string) {
    Decimal.PrintInt(f - HALF)
  }

  function PlainHost(): (h: Host) {
    Host(PlainFormat, SpelledBits, _ => "")
  }

  lemma PlainFloat(h: Host, f: Bits)
    requires h == PlainHost() && IsFinite(f)
    ensures IsNumber(h.formatFloat(f))
    ensures h.parseFloat(h.formatFloat(f)) == h.parseFloat(h.formatFloat(f) + ".0") == Some(f)
  {
    SpelledBitsRead(PlainFormat(f), f - HALF);
  }

  lemma PlainHostIsLawful()
    ensures Lawful(PlainHost())
  {
    var h := PlainHost();
    forall f: Bits | IsFinite(f)
      ensures IsNumber(h.formatFloat(f)) && h.parseFloat(h.formatFloat(f)) == Some(f)
      ensures h.parseFloat(h.formatFloat(f) + ".0") == Some(f)
    {
      PlainFloat(h, f);
    }
    forall t: string | h.parseFloat(t).Some?
      ensures IsFinite(h.parseFloat(t).value)
    {
      assert h.parseFloat(t) == SpelledBits(t);
    }
  }

  datatype Error = NotOneValue | MoreFollows | Boolean | IntegerRange | NotFiniteFloat | BytesNotText | BytesNotBase64

  // ---------------------------------------------------------------- printing

  /** A float always looks like one. */
  function FloatText(h: Host, f: Bits): (s: string) {
    var text := h.formatFloat(f);
    if ContainsAny(text, ".eEn") then text else text + ".0"
  }

  function KeyText(h: Host, key: Value): (s: string) {
    if key.Text? then key.text else h.diagnostic(Encode(key))
  }

  /** The JSON of v with the entries of its maps in the order they stand. */
  function PrintAsIs(h: Host, v: Value): (s: string)
    decreases v, 0
  {
    match v
    case Null => "null"
    case Int(i) => Decimal.PrintInt(i)
    case Float(f) => FloatText(h, f)
    case Text(t) => Quote(t)
    case Blob(b) => "{\"$bytes\":\"" + Base64.Encode(b) + "\"}"
    case List(items) => "[" + PrintItems(h, items) + "]"
    case Map(entries) => "{" + PrintEntries(h, entries) + "}"
    case Other(encoded) => Quote(h.diagnostic(encoded))
  }

  function PrintItems(h: Host, items: seq<Value>): (s: string)
    decreases items, 1
  {
    if items == [] then ""
    else if |items| == 1 then PrintAsIs(h, items[0])
    else PrintAsIs(h, items[0]) + "," + PrintItems(h, items[1..])
  }

  function PrintEntry(h: Host, e: Entry): (s: string)
    decreases e, 1
  {
    Quote(KeyText(h, e.key)) + ":" + PrintAsIs(h, e.val)
  }

  function PrintEntries(h: Host, entries: seq<Entry>): (s: string)
    decreases entries, 2
  {
    if entries == [] then ""
    else if |entries| == 1 then PrintEntry(h, entries[0])
    else PrintEntry(h, entries[0]) + "," + PrintEntries(h, entries[1..])
  }

  /** `ToJSON`. */
  function Print(h: Host, v: Value): (s: string) {
    PrintAsIs(h, Canon(v))
  }

  // ---------------------------------------------------------------- reading

  /** `fromNumber`: without fraction or exponent an integer, which must be an int64. */
  function NumberValue(h: Host, literal: string): (r: Result<Value, Error>) {
    if !ContainsAny(literal, ".eE") then
      match Decimal.ParseInt(literal)
      case Some(i) => Ok(Int(i))
      case None => Err(IntegerRange)
    else
      match h.parseFloat(literal)
      case Some(f) => Ok(Float(f))
      case None => Err(NotFiniteFloat)
  }

  /** `fromBytesMarked`. */
  function MarkedBytes(n: Json): (r: Result<Value, Error>) {
    if !n.String? then Err(BytesNotText)
    else
      match Base64.Decode(n.text)
      case Some(b) => Ok(Blob(b))
      case None => Err(BytesNotBase64)
  }

  /** An object whose only key is "$bytes". */
  predicate IsMarked(members: map<string, Json>) {
    members.Keys == {BYTES_KEY}
  }

  /** v is a value n may be read as. Go ranges over an object's members in any order, so v's entries
      stand in any order too. */
  ghost predicate Denotes(h: Host, n: Json, v: Value) {
    match n
    case Null => v == Value.Null
    case Bool(_) => false
    case String(t) => v == Text(t)
    case Number(literal) => NumberValue(h, literal) == Ok(v)
    case Array(items) =>
      v.List? && |v.items| == |items| && forall i :: 0 <= i < |items| ==> Denotes(h, items[i], v.items[i])
    case Object(members) =>
      if IsMarked(members) then MarkedBytes(members[BYTES_KEY]) == Ok(v)
      else
        && v.Map?
        && |v.entries| == |members|
        && DistinctKeys(v.entries)
        && forall i :: 0 <= i < |v.entries| ==>
             var e := v.entries[i];
             e.key.Text? && e.key.text in members && Denotes(h, members[e.key.text], e.val)
  }

  /** n can be read at all. */
  predicate Admits(h: Host, n: Json) {
    match n
    case Null => true
    case Bool(_) => false
    case String(_) => true
    case Number(literal) => NumberValue(h, literal).Ok?
    case Array(items) => forall i :: 0 <= i < |items| ==> Admits(h, items[i])
    case Object(members) =>
      if IsMarked(members) then MarkedBytes(members[BYTES_KEY]).Ok?
      else forall k :: k in members ==> Admits(h, members[k])
  }

  /** e is an error reading n may give: in an array the first one met, in an object any. */
  ghost predicate Refuses(h: Host, n: Json, e: Error) {
    match n
    case Bool(_) => e == Boolean
    case Number(literal) => NumberValue(h, literal) == Err(e)
    case Array(items) =>
      exists i :: 0 <= i < |items| && Refuses(h, items[i], e) && forall j :: 0 <= j < i ==> Admits(h, items[j])
    case Object(members) =>
      if IsMarked(members) then MarkedBytes(members[BYTES_KEY]) == Err(e)
      else exists k :: k in members && Refuses(h, members[k], e)
    case _ => false
  }

  /** text is one JSON value and nothing else; that value's tree. */
  function Parse(text: string): (r: Result<Json, Error>)
    ensures r.Ok? ==> Fits(r.value, MAX_DEPTH)
  {
    match Decode(text)
    case Fail => Err(NotOneValue)
    case Got(n, rest) => if SkipSpace(rest) == "" then Ok(n) else Err(MoreFollows)
  }

  /** `FromJSON(text)` may return v. */
  ghost predicate Reads(h: Host, text: string, v: Value) {
    Parse(text).Ok? && Denotes(h, Parse(text).value, v)
  }

  /** `FromJSON(text)` returns without error. */
  predicate Accepts(h: Host, text: string) {
    Parse(text).Ok? && Admits(h, Parse(text).value)
  }
}
