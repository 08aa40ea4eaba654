/** What the printer writes is a text of RFC 8259, of the tree that belongs to the value; so it is read
    as that tree, whatever stands behind it. */
module RoundTrip {
  import opened Bytes
  import opened JsonReader
  import opened JsonText
  import opened WireJson
  import opened WireValue
  import opened Wrappers
  import Base64
  import Decimal
  import JsonGrammar
  import JsonNumbers
  import JsonSoundness

  // ---------------------------------------------------------------- the tree of a printed value

  /** The tree of the text PrintAsIs gives. */
  function Tree(h: Host, v: Value): (n: Json)
    decreases v, 0
  {
    match v
    case Null => Json.Null
    case Int(i) => Number(Decimal.PrintInt(i))
    case Float(f) => Number(FloatText(h, f))
    case Text(t) => String(t)
    case Blob(b) => Object(map[BYTES_KEY := String(Base64.Encode(b))])
    case List(items) => Array(TreeItems(h, items))
    case Map(entries) => Object(LastWins(TreeMembers(h, entries)))
    case Other(encoded) => String(h.diagnostic(encoded))
  }

  function TreeItems(h: Host, items: seq<Value>): (ns: seq<Json>)
    ensures |ns| == |items|
    ensures forall i :: 0 <= i < |items| ==> ns[i] == Tree(h, items[i])
    decreases items, 1
  {
    if items == [] then [] else [Tree(h, items[0])] + TreeItems(h, items[1..])
  }

  function TreeMember(h: Host, e: Entry): (m: Member)
    decreases e, 1
  {
    Member(KeyText(h, e.key), Tree(h, e.val))
  }

  function TreeMembers(h: Host, entries: seq<Entry>): (ms: seq<Member>)
    ensures |ms| == |entries|
    ensures forall i :: 0 <= i < |entries| ==> ms[i] == TreeMember(h, entries[i])
    decreases entries, 2
  {
    if entries == [] then [] else [TreeMember(h, entries[0])] + TreeMembers(h, entries[1..])
  }

  /** A finite float prints as a number literal that no integer prints as, and parses back. */
  lemma FloatTextIsFloat(h: Host, f: Bits)
    requires Lawful(h) && IsFinite(f)
    ensures IsNumber(FloatText(h, f)) && ContainsAny(FloatText(h, f), ".eE")
    ensures NumberValue(h, FloatText(h, f)) == Ok(Float(f))
  {
    var text := h.formatFloat(f);
    NumberChars(text);
    if ContainsAny(text, ".eEn") {
      var i :| 0 <= i < |text| && text[i] in ".eEn";
      assert IsNumberChar(text[i]);
      assert text[i] in ".eE";
    } else {
      assert forall i :: 0 <= i < |text| ==> text[i] !in ".eEn";
      assert forall c :: c in ".eE" ==> c in ".eEn";
      PointZeroIsNumber(text);
    }
  }

  lemma IntTextIsInt(h: Host, i: int)
    ensures IsNumber(Decimal.PrintInt(i))
    ensures NumberValue(h, Decimal.PrintInt(i)) == if Decimal.IsInt64(i) then Ok(Int(i)) else Err(IntegerRange)
  {
    PrintedIntIsNumber(i);
    Decimal.IntRoundTrip(i);
  }

  /** Any literal without fraction and exponent is read as the integer it spells, if that is an int64. */
  lemma IntegerLiteralIsInt(h: Host, s: string) returns (i: int)
    requires JsonNumbers.IsInteger(s)
    ensures s == "-0" || s == Decimal.PrintInt(i)
    ensures s == "-0" ==> i == 0
    ensures NumberValue(h, s) ==
            if -9223372036854775808 <= i <= 9223372036854775807 then Ok(Int(i)) else Err(IntegerRange)
  {
    if s == "-0" {
      i := 0;
      MinusZero(h);
    } else {
      i := JsonNumbers.IntegerIsPrinted(s);
      IntTextIsInt(h, i);
      Decimal.IntRoundTrip(i);
    }
  }

  lemma MinusZero(h: Host)
    ensures NumberValue(h, "-0") == Ok(Int(0))
  {
    assert "-0"[1..] == "0" && "0"[..0] == "" && Decimal.NatValue("0") == 0;
    assert forall i :: 0 <= i < 2 ==> "-0"[i] !in ".eE";
  }

  // ---------------------------------------------------------------- strings

  lemma EscapeCharIsText(c: char)
    ensures JsonGrammar.IsCharText(EscapeChar(c), c)
    ensures |EscapeChar(c)| == 6 ==> c as int < 0x2030 && EscapeChar(c) == UnicodeEscape(c as int)
  {
    if MustEscape(c) && |EscapeChar(c)| == 6 {
      CodeUnitRoundTrip(c as int, "");
      assert UnicodeEscape(c as int) + "" == UnicodeEscape(c as int);
    }
  }

  /** No escape the printer writes is half of a pair. */
  lemma NeverPair(c: char, rest: string)
    requires |EscapeChar(c)| == 6
    ensures !JsonGrammar.IsPair(EscapeChar(c) + rest)
  {
    EscapeCharIsText(c);
    CodeUnitRoundTrip(c as int, rest);
  }

  /** What is written between the quotes means the text. */
  lemma {:induction false} EscapedIsChars(s: string)
    ensures JsonGrammar.IsChars(Escape(s), s)
  {
    if s != "" {
      EscapedIsChars(s[1..]);
      EscapeCharIsText(s[0]);
      if |EscapeChar(s[0])| == 6 {
        NeverPair(s[0], Escape(s[1..]));
      }
      JsonSoundness.CharInFront(EscapeChar(s[0]), s[0], Escape(s[1..]), s[1..]);
      assert [s[0]] + s[1..] == s;
    }
  }

  /** Unquoting a quoted string gives it back and stops exactly behind it, whatever follows. */
  lemma QuoteRoundTrip(s: string, rest: string)
    ensures ScanString(Escape(s) + ("\"" + rest)) == Got(s, rest)
  {
    EscapedIsChars(s);
    JsonGrammar.CharsAreRead(Escape(s), s, rest);
  }

  lemma QuotedIsString(s: string)
    ensures JsonGrammar.IsBetween(Quote(s), '"', '"') && JsonGrammar.IsChars(JsonGrammar.Inside(Quote(s)), s)
  {
    EscapedIsChars(s);
    JsonSoundness.Enclose('"', Escape(s), '"');
  }

  /** Base64 needs no escape. */
  lemma {:induction false} NothingToEscape(s: string)
    requires forall i :: 0 <= i < |s| ==> !MustEscape(s[i])
    ensures Escape(s) == s
  {
    if s != "" {
      NothingToEscape(s[1..]);
    }
  }

  // ---------------------------------------------------------------- values

  /** A quoted key, a colon and a value without any space. */
  function Tight(key: string, value: string): (x: JsonGrammar.MemberParts) {
    JsonGrammar.MemberParts(Quote(key), "", "", value)
  }

  lemma TightText(key: string, value: string, rest: string)
    ensures JsonGrammar.IsMemberParts(Tight(key, value), key)
    ensures Tight(key, value).Text(rest) == Quote(key) + ":" + value + rest
  {
    QuotedIsString(key);
    Flat(Quote(key), value, rest);
  }

  lemma Flat(q: string, value: string, rest: string)
    ensures q + ("" + (":" + ("" + (value + rest)))) == q + ":" + value + rest
  {
  }

  lemma OneMemberIsText(key: string, value: string, n: Json, depth: nat)
    requires JsonGrammar.IsValue(value, n, depth)
    ensures JsonGrammar.IsMembers(Quote(key) + ":" + value, [Member(key, n)], depth)
  {
    TightText(key, value, "");
    JsonSoundness.MemberAlone(Tight(key, value), "", Member(key, n), depth);
    assert Quote(key) + ":" + value + "" == Quote(key) + ":" + value;
  }

  lemma NextMemberIsText(key: string, value: string, n: Json, u: string, ms: seq<Member>, depth: nat)
    requires JsonGrammar.IsValue(value, n, depth) && JsonGrammar.IsMembers(u, ms, depth)
    ensures JsonGrammar.IsMembers(Quote(key) + ":" + value + "," + u, [Member(key, n)] + ms, depth)
  {
    TightText(key, value, "" + ("," + u));
    JsonSoundness.MemberInFront(Tight(key, value), "", Member(key, n), u, ms, depth);
    assert Quote(key) + ":" + value + ("" + ("," + u)) == Quote(key) + ":" + value + "," + u;
  }

  lemma LastOfOne(m: Member)
    ensures LastWins([m]) == map[m.key := m.value]
  {
    assert [m][..0] == [];
  }

  lemma BlobText(text: string)
    ensures "{" + ("\"" + BYTES_KEY + "\"" + ":" + ("\"" + text + "\"")) + "}" == "{\"$bytes\":\"" + text + "\"}"
  {
    assert "{" + "\"" + BYTES_KEY + "\"" + ":" + "\"" == "{\"$bytes\":\"";
  }

  lemma BlobIsText(text: string, depth: nat)
    requires forall i :: 0 <= i < |text| ==> !MustEscape(text[i])
    ensures JsonGrammar.IsValue("{\"$bytes\":\"" + text + "\"}", Object(map[BYTES_KEY := String(text)]), depth + 1)
  {
    NothingToEscape(text);
    NothingToEscape(BYTES_KEY);
    QuotedIsString(text);
    OneMemberIsText(BYTES_KEY, Quote(text), String(text), depth);
    JsonSoundness.ObjectText(Quote(BYTES_KEY) + ":" + Quote(text), [Member(BYTES_KEY, String(text))], depth);
    LastOfOne(Member(BYTES_KEY, String(text)));
    BlobText(text);
  }

  lemma NumeralIsText(literal: string, depth: nat)
    requires IsNumber(literal)
    ensures JsonGrammar.IsValue(literal, Number(literal), depth)
  {
    JsonNumbers.NumberExactly(literal);
  }

  lemma QuotedIsText(text: string, depth: nat)
    ensures JsonGrammar.IsValue(Quote(text), String(text), depth)
  {
    QuotedIsString(text);
  }

  lemma ScalarIsText(h: Host, v: Value, depth: nat)
    requires Lawful(h) && IsPayload(v) && Nests(v, depth) && !v.List? && !v.Map?
    ensures JsonGrammar.IsValue(PrintAsIs(h, v), Tree(h, v), depth)
  {
    match v
    case Null =>
    case Int(i) =>
      IntTextIsInt(h, i);
      NumeralIsText(Decimal.PrintInt(i), depth);
    case Float(f) =>
      FloatTextIsFloat(h, f);
      NumeralIsText(FloatText(h, f), depth);
    case Text(t) => QuotedIsText(t, depth);
    case Blob(b) =>
      Base64.EncodeShape(b);
      BlobIsText(Base64.Encode(b), depth - 1);
  }

  /** What is printed for a payload is JSON, the text of its tree. */
  lemma {:induction false} PrintedIsText(h: Host, v: Value, depth: nat)
    requires Lawful(h) && IsPayload(v) && Nests(v, depth)
    ensures JsonGrammar.IsValue(PrintAsIs(h, v), Tree(h, v), depth)
    decreases v, 0
  {
    match v
    case List(items) =>
      if items != [] {
        PrintedItemsAreText(h, items, depth - 1);
      }
      JsonSoundness.ArrayText(PrintItems(h, items), TreeItems(h, items), depth - 1);
    case Map(entries) =>
      if entries != [] {
        PrintedEntriesAreText(h, entries, depth - 1);
      }
      JsonSoundness.ObjectText(PrintEntries(h, entries), TreeMembers(h, entries), depth - 1);
    case _ => ScalarIsText(h, v, depth);
  }

  lemma {:induction false} PrintedItemsAreText(h: Host, items: seq<Value>, depth: nat)
    requires Lawful(h) && items != []
    requires forall i :: 0 <= i < |items| ==> IsPayload(items[i]) && Nests(items[i], depth)
    ensures JsonGrammar.IsItems(PrintItems(h, items), TreeItems(h, items), depth)
    decreases items, 1
  {
    var text := PrintAsIs(h, items[0]);
    PrintedIsText(h, items[0], depth);
    if |items| == 1 {
      JsonSoundness.ItemAlone(text, "", Tree(h, items[0]), depth);
      assert text + "" == text && TreeItems(h, items) == [Tree(h, items[0])];
    } else {
      var u := PrintItems(h, items[1..]);
      PrintedItemsAreText(h, items[1..], depth);
      JsonSoundness.ItemInFront(text, "", Tree(h, items[0]), u, TreeItems(h, items[1..]), depth);
      assert text + ("" + ("," + u)) == text + "," + u;
    }
  }

  lemma {:induction false} PrintedEntriesAreText(h: Host, entries: seq<Entry>, depth: nat)
    requires Lawful(h) && entries != []
    requires forall i :: 0 <= i < |entries| ==> IsPayload(entries[i].val) && Nests(entries[i].val, depth)
    ensures JsonGrammar.IsMembers(PrintEntries(h, entries), TreeMembers(h, entries), depth)
    decreases entries, 1
  {
    var e := entries[0];
    var key, value, n := KeyText(h, e.key), PrintAsIs(h, e.val), Tree(h, e.val);
    assert e in entries && e.val < e;
    PrintedIsText(h, e.val, depth);
    assert PrintEntry(h, e) == Quote(key) + ":" + value && TreeMember(h, e) == Member(key, n);
    if |entries| == 1 {
      OneMemberIsText(key, value, n, depth);
      assert TreeMembers(h, entries) == [TreeMember(h, e)];
      assert PrintEntries(h, entries) == PrintEntry(h, e);
    } else {
      var u, ms := PrintEntries(h, entries[1..]), TreeMembers(h, entries[1..]);
      PrintedEntriesAreText(h, entries[1..], depth);
      NextMemberIsText(key, value, n, u, ms, depth);
      assert TreeMembers(h, entries) == [TreeMember(h, e)] + ms;
      assert PrintEntries(h, entries) == PrintEntry(h, e) + "," + u;
    }
  }

  /** Reading what was printed gives its tree and stops exactly behind it, whatever list, object or
      end of text follows. */
  lemma PrintedReadsAs(h: Host, v: Value, depth: nat)
    requires Lawful(h) && IsPayload(v) && Nests(v, depth)
    ensures JsonGrammar.ReadsAs(PrintAsIs(h, v), Tree(h, v), depth)
  {
    PrintedIsText(h, v, depth);
    JsonGrammar.TextIsRead(PrintAsIs(h, v), Tree(h, v), depth);
  }
}
